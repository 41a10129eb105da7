/** The CSV reference importers for countries, subjects and departments.
    Each reads the rows of one file; a row is a dict from column names to
    the cell values (a str, or None for a cell the row does not have). */
module Importers {
  import opened Wrappers
  import opened Py
  import PyStr
  import Helpers
  import opened Models

  /** `v.strip()`: only a str has the method; None raises AttributeError. */
  function StripValue(v: JsonVal): (r: Result<string>)
    ensures r.Ok? <==> v.Str?
    ensures r.Err? ==> r.error == AttributeError
  {
    if v.Str? then Ok(PyStr.Strip(v.s)) else Err(AttributeError)
  }

  /** `row[k]`: a column the row does not have raises KeyError. */
  function Field(row: Dict, k: string): (r: Result<JsonVal>)
    ensures r.Ok? <==> k in Keys(row)
    ensures r.Err? ==> r.error == KeyError
  {
    GetItem(Obj(row), k)
  }

  /** A row as `csv.DictReader` gives it: every cell is a str, and after
      `nullify` possibly None. */
  predicate CsvRow(row: Dict) {
    forall i :: 0 <= i < |row| ==> row[i].1.Str? || row[i].1.Null?
  }

  /** `get_key(row, k, default)` on a CSV row: the cell, or `default` when
      the column is missing or the cell is None. */
  function Cell(row: Dict, k: string, default: JsonVal): JsonVal {
    match Lookup(row, k)
    case None => default
    case Some(v) => if v.Null? then default else v
  }

  /** On a CSV row `get_key` never raises, and `Cell` is what it returns:
      no cell is a Scopus wire value that it would unwrap. */
  lemma CellIsGet(row: Dict, k: string, default: JsonVal)
    requires CsvRow(row)
    ensures Helpers.Get(Obj(row), k, default) == Ok(Cell(row, k, default))
  {
    if Lookup(row, k).Some? {
      var v := Lookup(row, k).value;
      var i :| 0 <= i < |row| && row[i] == (k, v);
    }
  }

  /** `nullify` keeps a CSV row a CSV row. */
  lemma NullifiedCsv(row: Dict)
    requires CsvRow(row)
    ensures CsvRow(Helpers.Nullified(row, Helpers.NullTypes))
  {
  }

  /** A str that `strip` leaves as it is. */
  predicate Trimmed(s: string) {
    PyStr.Strip(s) == s
  }

  lemma StrippedTrimmed(s: string)
    ensures Trimmed(PyStr.Strip(s))
  {
    PyStr.StripIdempotent(s);
  }

  // ================================================================ row loops

  /** The list a row loop builds when each row adds at most one item and the
      first row that raises ends the loop with its exception. */
  function Collect<T>(rs: seq<Result<Option<T>>>): (r: Result<seq<T>>)
    decreases |rs|
  {
    if rs == [] then Ok([])
    else
      var prefix :- Collect(rs[..|rs| - 1]);
      var last :- rs[|rs| - 1];
      Ok(prefix + if last.Some? then [last.value] else [])
  }

  /** How many rows add an item. */
  function Kept<T>(rs: seq<Result<Option<T>>>): nat
    decreases |rs|
  {
    if rs == [] then 0
    else Kept(rs[..|rs| - 1]) + if rs[|rs| - 1].Ok? && rs[|rs| - 1].value.Some? then 1 else 0
  }

  /** The loop runs to the end exactly when no row raises. */
  lemma {:induction false} CollectOk<T>(rs: seq<Result<Option<T>>>)
    decreases |rs|
    ensures Collect(rs).Ok? <==> forall i :: 0 <= i < |rs| ==> rs[i].Ok?
  {
    if rs != [] {
      var p := rs[..|rs| - 1];
      CollectOk(p);
      assert forall i :: 0 <= i < |p| ==> p[i] == rs[i];
    }
  }

  /** Once a prefix of the rows raises, the loop raises that exception. */
  lemma {:induction false} CollectErrPrefix<T>(rs: seq<Result<Option<T>>>, n: nat)
    requires n <= |rs| && Collect(rs[..n]).Err?
    decreases |rs|
    ensures Collect(rs) == Collect(rs[..n])
  {
    if n < |rs| {
      var p := rs[..|rs| - 1];
      assert p[..n] == rs[..n];
      CollectErrPrefix(p, n);
    } else {
      assert rs[..n] == rs;
    }
  }

  /** One more row: it raises, or adds its item if it has one. */
  lemma CollectStep<T>(rs: seq<Result<Option<T>>>, i: nat)
    requires i < |rs| && Collect(rs[..i]).Ok?
    ensures rs[i].Err? ==> Collect(rs[..i + 1]) == Err(rs[i].error)
    ensures rs[i] == Ok(None) ==> Collect(rs[..i + 1]) == Collect(rs[..i])
    ensures rs[i].Ok? && rs[i].value.Some? ==>
              Collect(rs[..i + 1]) == Ok(Collect(rs[..i]).value + [rs[i].value.value])
  {
    assert rs[..i + 1][..i] == rs[..i] && rs[..i + 1][i] == rs[i];
    if rs[i] == Ok(None) {
      assert Collect(rs[..i]).value + [] == Collect(rs[..i]).value;
    }
  }

  /** The exception the loop raises is the one of the first row that raises. */
  lemma {:induction false} CollectFirstError<T>(rs: seq<Result<Option<T>>>)
    requires Collect(rs).Err?
    decreases |rs|
    ensures exists i :: 0 <= i < |rs| && rs[i] == Err(Collect(rs).error)
                        && forall j :: 0 <= j < i ==> rs[j].Ok?
  {
    var p := rs[..|rs| - 1];
    assert forall j :: 0 <= j < |p| ==> p[j] == rs[j];
    if Collect(p).Err? {
      CollectFirstError(p);
    } else {
      CollectOk(p);
      assert rs[|rs| - 1] == Err(Collect(rs).error);
    }
  }

  /** Kept counts one for each row that adds an item. */
  lemma {:induction false} KeptMonotone<T>(rs: seq<Result<Option<T>>>, i: nat, j: nat)
    requires i <= j <= |rs|
    decreases |rs|
    ensures Kept(rs[..i]) <= Kept(rs[..j])
    ensures i < j && rs[i].Ok? && rs[i].value.Some? ==> Kept(rs[..i]) < Kept(rs[..j])
  {
    if j < |rs| {
      var p := rs[..|rs| - 1];
      assert p[..i] == rs[..i] && p[..j] == rs[..j] && (i < |p| ==> p[i] == rs[i]);
      KeptMonotone(p, i, j);
    } else if i < j {
      var p := rs[..|rs| - 1];
      assert rs[..j] == rs && p[..i] == rs[..i] && p[..j - 1] == p;
      assert i < |p| ==> p[i] == rs[i];
      KeptMonotone(p, i, j - 1);
      if i == j - 1 {
        assert rs[..i] == p;
      }
    }
  }

  /** The loop returns one item per row that adds one. */
  lemma {:induction false} CollectLength<T>(rs: seq<Result<Option<T>>>)
    requires Collect(rs).Ok?
    decreases |rs|
    ensures |Collect(rs).value| == Kept(rs)
  {
    if rs != [] {
      CollectLength(rs[..|rs| - 1]);
    }
  }

  /** Row i's item is the one after those of the adding rows before it, so
      the items are in row order and equal rows each add theirs. */
  lemma {:induction false} CollectAt<T>(rs: seq<Result<Option<T>>>, i: nat)
    requires Collect(rs).Ok? && i < |rs| && rs[i].Ok? && rs[i].value.Some?
    decreases |rs|
    ensures Kept(rs[..i]) < |Collect(rs).value| && Collect(rs).value[Kept(rs[..i])] == rs[i].value.value
  {
    var p := rs[..|rs| - 1];
    var q := Collect(p).value;
    assert Collect(rs).value[..|q|] == q;
    CollectLength(p);
    if i < |p| {
      assert p[i] == rs[i] && p[..i] == rs[..i];
      CollectAt(p, i);
    } else {
      assert rs[..i] == p;
    }
  }

  /** Every item comes from a row. */
  lemma {:induction false} CollectFrom<T>(rs: seq<Result<Option<T>>>)
    requires Collect(rs).Ok?
    decreases |rs|
    ensures forall k :: 0 <= k < |Collect(rs).value| ==>
              exists i :: 0 <= i < |rs| && rs[i] == Ok(Some(Collect(rs).value[k]))
  {
    if rs != [] {
      var p := rs[..|rs| - 1];
      var out := Collect(rs).value;
      CollectFrom(p);
      var q := Collect(p).value;
      assert out[..|q|] == q;
      forall k | 0 <= k < |out| ensures exists i :: 0 <= i < |rs| && rs[i] == Ok(Some(out[k])) {
        if k < |q| {
          var i :| 0 <= i < |p| && p[i] == Ok(Some(q[k]));
          assert rs[i] == p[i];
        } else {
          assert rs[|rs| - 1] == Ok(Some(out[k]));
        }
      }
    }
  }

  /** What a generator over the rows hands out: the items yielded before it
      stopped, and the exception it stopped with, if any. */
  datatype Run<T> = Run(items: seq<T>, error: Option<PyError>)

  /** The generator form of `Collect`: each row yields at most one item, and
      the first row that raises ends the generation, with the items yielded
      before it already handed out. */
  function Generate<T>(rs: seq<Result<Option<T>>>): Run<T>
    decreases |rs|
  {
    if rs == [] then Run([], None)
    else
      var prefix := Generate(rs[..|rs| - 1]);
      if prefix.error.Some? then prefix
      else
        match rs[|rs| - 1]
        case Err(e) => Run(prefix.items, Some(e))
        case Ok(None) => prefix
        case Ok(Some(x)) => Run(prefix.items + [x], None)
  }

  /** A generator that does not raise yields what the loop would return,
      and one that raises stops with the loop's exception. */
  lemma {:induction false} GenerateCollect<T>(rs: seq<Result<Option<T>>>)
    decreases |rs|
    ensures Generate(rs).error.None? <==> Collect(rs).Ok?
    ensures Collect(rs).Ok? ==> Generate(rs).items == Collect(rs).value
    ensures Collect(rs).Err? ==> Generate(rs).error == Some(Collect(rs).error)
  {
    if rs != [] {
      GenerateCollect(rs[..|rs| - 1]);
      if Collect(rs[..|rs| - 1]).Ok? && rs[|rs| - 1] == Ok(None) {
        assert Collect(rs[..|rs| - 1]).value + [] == Collect(rs[..|rs| - 1]).value;
      }
    }
  }

  /** One more row: it raises, or yields its item if it has one. */
  lemma GenerateStep<T>(rs: seq<Result<Option<T>>>, i: nat)
    requires i < |rs| && Generate(rs[..i]).error.None?
    ensures rs[i].Err? ==> Generate(rs[..i + 1]) == Run(Generate(rs[..i]).items, Some(rs[i].error))
    ensures rs[i] == Ok(None) ==> Generate(rs[..i + 1]) == Generate(rs[..i])
    ensures rs[i].Ok? && rs[i].value.Some? ==>
              Generate(rs[..i + 1]) == Run(Generate(rs[..i]).items + [rs[i].value.value], None)
  {
    assert rs[..i + 1][..i] == rs[..i] && rs[..i + 1][i] == rs[i];
  }

  /** Once a prefix of the rows raises, the generator has stopped. */
  lemma {:induction false} GenerateErrPrefix<T>(rs: seq<Result<Option<T>>>, n: nat)
    requires n <= |rs| && Generate(rs[..n]).error.Some?
    decreases |rs|
    ensures Generate(rs) == Generate(rs[..n])
  {
    if n < |rs| {
      var p := rs[..|rs| - 1];
      assert p[..n] == rs[..n];
      GenerateErrPrefix(p, n);
    } else {
      assert rs[..n] == rs;
    }
  }

  /** The items handed out are those of the rows before the first one that
      raises, and the generator stops with that row's exception. */
  lemma {:induction false} GenerateYieldsPrefix<T>(rs: seq<Result<Option<T>>>)
    decreases |rs|
    ensures exists n :: 0 <= n <= |rs| && Collect(rs[..n]) == Ok(Generate(rs).items)
                        && (Generate(rs).error.None? ==> n == |rs|)
                        && (Generate(rs).error.Some? ==> n < |rs| && rs[n] == Err(Generate(rs).error.value))
  {
    if rs == [] {
      assert rs[..0] == rs;
    } else {
      var p := rs[..|rs| - 1];
      var g := Generate(p);
      GenerateYieldsPrefix(p);
      var n :| 0 <= n <= |p| && Collect(p[..n]) == Ok(g.items)
               && (g.error.None? ==> n == |p|)
               && (g.error.Some? ==> n < |p| && p[n] == Err(g.error.value));
      assert p[..n] == rs[..n];
      if g.error.Some? {
        assert rs[n] == p[n];
      } else {
        GenerateCollect(p);
        assert p == rs[..|p|];
        if rs[|rs| - 1].Ok? {
          CollectStep(rs, |p|);
          assert rs[..|p| + 1] == rs;
          if rs[|rs| - 1] == Ok(None) {
            assert Generate(rs) == g;
          }
        }
      }
    }
  }

  /** Every item handed out comes from a row that yields it. */
  lemma GenerateFrom<T>(rs: seq<Result<Option<T>>>)
    ensures forall k :: 0 <= k < |Generate(rs).items| ==>
              exists i :: 0 <= i < |rs| && rs[i] == Ok(Some(Generate(rs).items[k]))
  {
    GenerateYieldsPrefix(rs);
    var n :| 0 <= n <= |rs| && Collect(rs[..n]) == Ok(Generate(rs).items);
    CollectFrom(rs[..n]);
    forall k | 0 <= k < |Generate(rs).items|
      ensures exists i :: 0 <= i < |rs| && rs[i] == Ok(Some(Generate(rs).items[k]))
    {
      var i :| 0 <= i < n && rs[..n][i] == Ok(Some(Generate(rs).items[k]));
      assert rs[i] == rs[..n][i];
    }
  }

  // ================================================================ ext_country_process

  /** The values a new Country is created with. */
  datatype CountryData = CountryData(name: string, domain: string, region: string, subRegion: string)

  function CountryValues(c: Country): CountryData {
    CountryData(c.name, c.domain, c.region, c.subRegion)
  }

  /** `country_names(row['name']).strip()`: the name a row is looked up by. */
  function LookupName(row: Dict): Result<string> {
    var given :- Field(row, "name");
    var folded :- Helpers.CountryNames(given);
    StripValue(folded)
  }

  /** What one row adds: nothing when its name is stored, else a new Country. */
  function CountryRow(store: Store, raw: Dict): Result<Option<CountryData>> {
    CountryFields(store, Helpers.Nullified(raw, Helpers.NullTypes))
  }

  /** `CountryRow` once the row has been nullified. */
  function CountryFields(store: Store, row: Dict): Result<Option<CountryData>> {
    var name :- LookupName(row);
    if name in store.countries then Ok(None)
    else
      var domain :- Field(row, "domain");
      var domain :- StripValue(domain);
      var region :- Field(row, "region");
      var region :- StripValue(region);
      var subRegion :- Field(row, "sub_region");
      var subRegion :- StripValue(subRegion);
      Ok(Some(CountryData(name, domain, region, subRegion)))
  }

  function CountryResults(store: Store, rows: seq<Dict>): (r: seq<Result<Option<CountryData>>>)
    ensures |r| == |rows| && forall i :: 0 <= i < |rows| ==> r[i] == CountryRow(store, rows[i])
  {
    seq(|rows|, i requires 0 <= i < |rows| => CountryRow(store, rows[i]))
  }

  /** The result of `ext_country_process` over `rows`. */
  function CountryRows(store: Store, rows: seq<Dict>): Result<seq<CountryData>> {
    Collect(CountryResults(store, rows))
  }

  function CountryList(cs: seq<Country>): (r: seq<CountryData>)
    ensures |r| == |cs| && forall k :: 0 <= k < |cs| ==> r[k] == CountryValues(cs[k])
  {
    seq(|cs|, k requires 0 <= k < |cs| => CountryValues(cs[k]))
  }

  /** One pass of the loop: the row's new country, if any, is appended. */
  method CountryStep(ghost rs: seq<Result<Option<CountryData>>>, i: nat, x: Result<Option<CountryData>>, countries: seq<Country>)
    returns (next: seq<Country>, failed: Option<PyError>)
    requires i < |rs| && rs[i] == x
    requires Collect(rs[..i]) == Ok(CountryList(countries))
    ensures failed.None? ==> Collect(rs[..i + 1]) == Ok(CountryList(next))
    ensures failed.Some? ==> Collect(rs[..i + 1]) == Err(failed.value)
  {
    CollectStep(rs, i);
    next, failed := countries, None;
    match x {
      case Err(e) =>
        failed := Some(e);
      case Ok(None) =>
      case Ok(Some(d)) =>
        var country := new Country(d.name, d.domain, d.region, d.subRegion);
        assert CountryList(countries + [country]) == CountryList(countries) + [CountryValues(country)];
        next := countries + [country];
    }
  }

  /** `ext_country_process(db, file_path)`: the new countries of the file. */
  method ExtCountryProcess(store: Store, rows: seq<Dict>) returns (r: Result<seq<Country>>)
    ensures r.Ok? <==> CountryRows(store, rows).Ok?
    ensures r.Err? ==> r.error == CountryRows(store, rows).error
    ensures r.Ok? ==> CountryList(r.value) == CountryRows(store, rows).value
  {
    ghost var rs := CountryResults(store, rows);
    assert rs[..0] == [];
    var countries: seq<Country> := [];
    var failed: Option<PyError> := None;
    var i := 0;
    while i < |rows| && failed.None?
      invariant 0 <= i <= |rows|
      invariant failed.None? ==> Collect(rs[..i]) == Ok(CountryList(countries))
      invariant failed.Some? ==> Collect(rs[..i]) == Err(failed.value)
    {
      var x := CountryRow(store, rows[i]);
      countries, failed := CountryStep(rs, i, x, countries);
      i := i + 1;
    }
    if failed.Some? {
      CollectErrPrefix(rs, i);
      r := Err(failed.value);
    } else {
      assert rs[..i] == rs;
      r := Ok(countries);
    }
  }

  lemma FoldedStrips()
    ensures PyStr.Strip("United States") == "United States"
  {
    PyStr.StripNoSpaceEnds("United States");
  }

  lemma PaddedStrips()
    ensures PyStr.Strip(" USA") == "USA"
  {
    var u := "USA";
    assert !PyStr.IsSpace(u[0]) && !PyStr.IsSpace(u[2]);
    assert PyStr.LStrip(u) == u;
    assert " USA"[1..] == u;
    assert PyStr.LStrip(" USA") == u;
    PyStr.StripNoSpaceEnds(u);
  }

  /** nullify keeps a value that is not null-looking. */
  lemma NullifiedKeeps(raw: Dict, k: string, v: JsonVal)
    requires UniqueKeys(raw) && Lookup(raw, k) == Some(v) && v !in Helpers.NullTypes
    ensures Lookup(Helpers.Nullified(raw, Helpers.NullTypes), k) == Some(v)
  {
    Helpers.NullifiedLookup(raw, Helpers.NullTypes, k);
  }

  lemma PaddedNotAlias()
    ensures Helpers.CountryNames(Str(" USA")) == Ok(Str(" USA"))
  {
    assert " USA"[0] == ' ';
    assert " USA" !in Helpers.CountryAliases;
  }

  lemma UsaAlias()
    ensures Helpers.CountryNames(Str("USA")) == Ok(Str("United States"))
  {
  }

  /** An alias is folded: a row named "USA" is looked up as "United States". */
  lemma AliasFolded(raw: Dict)
    requires UniqueKeys(raw) && Lookup(raw, "name") == Some(Str("USA"))
    ensures LookupName(Helpers.Nullified(raw, Helpers.NullTypes)) == Ok("United States")
  {
    NullifiedKeeps(raw, "name", Str("USA"));
    var row := Helpers.Nullified(raw, Helpers.NullTypes);
    assert Field(row, "name") == Ok(Str("USA"));
    UsaAlias();
    FoldedStrips();
  }

  /** Aliases are folded before stripping: a row named " USA" is not
      folded, only stripped, and is looked up as "USA". */
  lemma AliasBeforeStrip(raw: Dict)
    requires UniqueKeys(raw) && Lookup(raw, "name") == Some(Str(" USA"))
    ensures LookupName(Helpers.Nullified(raw, Helpers.NullTypes)) == Ok("USA")
  {
    NullifiedKeeps(raw, "name", Str(" USA"));
    var row := Helpers.Nullified(raw, Helpers.NullTypes);
    assert Field(row, "name") == Ok(Str(" USA"));
    PaddedNotAlias();
    PaddedStrips();
  }

  /** A row whose folded, stripped name is stored adds nothing, and a row
      that adds a country gives it that name and the stripped columns. */
  lemma CountryRowNew(store: Store, raw: Dict)
    requires CountryRow(store, raw).Ok? && CountryRow(store, raw).value.Some?
    ensures var c := CountryRow(store, raw).value.value;
            c.name !in store.countries
            && Trimmed(c.name) && Trimmed(c.domain) && Trimmed(c.region) && Trimmed(c.subRegion)
  {
    var row := Helpers.Nullified(raw, Helpers.NullTypes);
    var folded := Helpers.CountryNames(Field(row, "name").value).value;
    assert LookupName(row) == Ok(PyStr.Strip(folded.s));
    StrippedTrimmed(folded.s);
    StrippedTrimmed(Field(row, "domain").value.s);
    StrippedTrimmed(Field(row, "region").value.s);
    StrippedTrimmed(Field(row, "sub_region").value.s);
  }

  /** Every country of the result is new to the store and has stripped fields. */
  lemma CountryRowsNew(store: Store, rows: seq<Dict>)
    requires CountryRows(store, rows).Ok?
    ensures forall k :: 0 <= k < |CountryRows(store, rows).value| ==>
              var c := CountryRows(store, rows).value[k];
              c.name !in store.countries
              && Trimmed(c.name) && Trimmed(c.domain) && Trimmed(c.region) && Trimmed(c.subRegion)
  {
    var rs := CountryResults(store, rows);
    CollectFrom(rs);
    forall k | 0 <= k < |Collect(rs).value|
      ensures var c := Collect(rs).value[k];
              c.name !in store.countries
              && Trimmed(c.name) && Trimmed(c.domain) && Trimmed(c.region) && Trimmed(c.subRegion)
    {
      var i :| 0 <= i < |rs| && rs[i] == Ok(Some(Collect(rs).value[k]));
      CountryRowNew(store, rows[i]);
    }
  }

  /** One country per row whose name is not stored, in row order: row i adds
      the item at the position that counts the adding rows before it, so two
      equal rows add two equal countries. */
  lemma CountryRowsInOrder(store: Store, rows: seq<Dict>, i: nat, j: nat)
    requires CountryRows(store, rows).Ok? && i < j < |rows|
    requires CountryRow(store, rows[i]).Ok? && CountryRow(store, rows[i]).value.Some?
    requires CountryRow(store, rows[j]).Ok? && CountryRow(store, rows[j]).value.Some?
    ensures var rs := CountryResults(store, rows);
            var out := CountryRows(store, rows).value;
            Kept(rs[..i]) < Kept(rs[..j]) < |out|
            && out[Kept(rs[..i])] == CountryRow(store, rows[i]).value.value
            && out[Kept(rs[..j])] == CountryRow(store, rows[j]).value.value
  {
    var rs := CountryResults(store, rows);
    CollectAt(rs, i);
    CollectAt(rs, j);
    KeptMonotone(rs, i, j);
  }

  // ================================================================ ext_subject_process

  /** The values a new Subject is created with. */
  datatype SubjectData = SubjectData(asjc: string, top: string, middle: string, low: string)

  function SubjectValues(s: Subject): SubjectData {
    SubjectData(s.asjc, s.top, s.middle, s.low)
  }

  /** `Subject.asjc == asjc`: the integer column compared with a str finds
      the subject whose code the str spells. */
  predicate SubjectStored(store: Store, asjc: string) {
    match PyStr.ParseInt(asjc)
    case Some(n) => n in store.subjects
    case None => false
  }

  /** `row['asjc'].strip()`: the code a row is looked up by. */
  function SubjectCode(row: Dict): Result<string> {
    var given :- Field(row, "asjc");
    StripValue(given)
  }

  /** What one row adds: nothing when its stripped code is stored, else a
      new Subject with the stripped columns. */
  function SubjectRow(store: Store, raw: Dict): Result<Option<SubjectData>> {
    SubjectFields(store, Helpers.Nullified(raw, Helpers.NullTypes))
  }

  /** `SubjectRow` once the row has been nullified. */
  function SubjectFields(store: Store, row: Dict): Result<Option<SubjectData>> {
    var asjc :- SubjectCode(row);
    if SubjectStored(store, asjc) then Ok(None)
    else
      var top :- Field(row, "top");
      var top :- StripValue(top);
      var middle :- Field(row, "middle");
      var middle :- StripValue(middle);
      var low :- Field(row, "low");
      var low :- StripValue(low);
      Ok(Some(SubjectData(asjc, top, middle, low)))
  }

  function SubjectResults(store: Store, rows: seq<Dict>): (r: seq<Result<Option<SubjectData>>>)
    ensures |r| == |rows| && forall i :: 0 <= i < |rows| ==> r[i] == SubjectRow(store, rows[i])
  {
    seq(|rows|, i requires 0 <= i < |rows| => SubjectRow(store, rows[i]))
  }

  /** The result of `ext_subject_process` over `rows`. */
  function SubjectRows(store: Store, rows: seq<Dict>): Result<seq<SubjectData>> {
    Collect(SubjectResults(store, rows))
  }

  function SubjectList(ss: seq<Subject>): (r: seq<SubjectData>)
    ensures |r| == |ss| && forall k :: 0 <= k < |ss| ==> r[k] == SubjectValues(ss[k])
  {
    seq(|ss|, k requires 0 <= k < |ss| => SubjectValues(ss[k]))
  }

  /** One pass of the loop: the row's new subject, if any, is appended. */
  method SubjectStep(ghost rs: seq<Result<Option<SubjectData>>>, i: nat, x: Result<Option<SubjectData>>, subjects: seq<Subject>)
    returns (next: seq<Subject>, failed: Option<PyError>)
    requires i < |rs| && rs[i] == x
    requires Collect(rs[..i]) == Ok(SubjectList(subjects))
    ensures failed.None? ==> Collect(rs[..i + 1]) == Ok(SubjectList(next))
    ensures failed.Some? ==> Collect(rs[..i + 1]) == Err(failed.value)
  {
    CollectStep(rs, i);
    next, failed := subjects, None;
    match x {
      case Err(e) =>
        failed := Some(e);
      case Ok(None) =>
      case Ok(Some(d)) =>
        var subject := new Subject(d.asjc, d.top, d.middle, d.low);
        assert SubjectList(subjects + [subject]) == SubjectList(subjects) + [SubjectValues(subject)];
        next := subjects + [subject];
    }
  }

  /** `ext_subject_process(db, file_path)`: the new subjects of the file. */
  method ExtSubjectProcess(store: Store, rows: seq<Dict>) returns (r: Result<seq<Subject>>)
    ensures r.Ok? <==> SubjectRows(store, rows).Ok?
    ensures r.Err? ==> r.error == SubjectRows(store, rows).error
    ensures r.Ok? ==> SubjectList(r.value) == SubjectRows(store, rows).value
  {
    ghost var rs := SubjectResults(store, rows);
    assert rs[..0] == [];
    var subjects: seq<Subject> := [];
    var failed: Option<PyError> := None;
    var i := 0;
    while i < |rows| && failed.None?
      invariant 0 <= i <= |rows|
      invariant failed.None? ==> Collect(rs[..i]) == Ok(SubjectList(subjects))
      invariant failed.Some? ==> Collect(rs[..i]) == Err(failed.value)
    {
      var x := SubjectRow(store, rows[i]);
      subjects, failed := SubjectStep(rs, i, x, subjects);
      i := i + 1;
    }
    if failed.Some? {
      CollectErrPrefix(rs, i);
      r := Err(failed.value);
    } else {
      assert rs[..i] == rs;
      r := Ok(subjects);
    }
  }

  /** A row that adds a subject has a code that is not stored, and every
      column of the new subject is stripped. */
  lemma SubjectRowNew(store: Store, raw: Dict)
    requires SubjectRow(store, raw).Ok? && SubjectRow(store, raw).value.Some?
    ensures var s := SubjectRow(store, raw).value.value;
            !SubjectStored(store, s.asjc)
            && Trimmed(s.asjc) && Trimmed(s.top) && Trimmed(s.middle) && Trimmed(s.low)
  {
    var row := Helpers.Nullified(raw, Helpers.NullTypes);
    StrippedTrimmed(Field(row, "asjc").value.s);
    assert SubjectCode(row) == Ok(PyStr.Strip(Field(row, "asjc").value.s));
    StrippedTrimmed(Field(row, "top").value.s);
    StrippedTrimmed(Field(row, "middle").value.s);
    StrippedTrimmed(Field(row, "low").value.s);
  }

  /** " 1000 " strips to "1000". */
  lemma PaddedStrip(code: string)
    requires code != [] && !PyStr.IsSpace(code[0]) && !PyStr.IsSpace(code[|code| - 1])
    ensures PyStr.Strip(" " + code + " ") == code
  {
    var t := code + " ";
    assert (" " + code + " ")[1..] == t;
    assert t[0] == code[0];
    assert PyStr.LStrip(" " + code + " ") == t;
    assert t[..|t| - 1] == code;
    assert PyStr.RStrip(t) == PyStr.RStrip(code);
    PyStr.StripNoSpaceEnds(code);
  }

  lemma PaddedNotNull(code: string)
    requires code != []
    ensures Str(" " + code + " ") !in Helpers.NullTypes
  {
    var t := " " + code + " ";
    assert |t| >= 3 && t[0] == ' ';
    assert "#N/A"[0] == '#';
  }

  /** The code is stripped before the lookup: a stored subject's code,
      padded with spaces, is found. */
  lemma SubjectPaddedCodeStored(store: Store, raw: Dict, n: nat)
    requires n in store.subjects && UniqueKeys(raw)
    requires Lookup(raw, "asjc") == Some(Str(" " + PyStr.IntToStr(n) + " "))
    ensures SubjectRow(store, raw) == Ok(None)
  {
    var code := PyStr.IntToStr(n);
    PyStr.IntToStrShape(n);
    PyStr.ParseIntOfIntToStr(n);
    PaddedStrip(code);
    PaddedNotNull(code);
    Helpers.NullifiedLookup(raw, Helpers.NullTypes, "asjc");
    assert SubjectCode(Helpers.Nullified(raw, Helpers.NullTypes)) == Ok(code);
  }

  /** Every subject of the result has a code that is not stored and stripped columns. */
  lemma SubjectRowsNew(store: Store, rows: seq<Dict>)
    requires SubjectRows(store, rows).Ok?
    ensures forall k :: 0 <= k < |SubjectRows(store, rows).value| ==>
              var s := SubjectRows(store, rows).value[k];
              !SubjectStored(store, s.asjc)
              && Trimmed(s.asjc) && Trimmed(s.top) && Trimmed(s.middle) && Trimmed(s.low)
  {
    var rs := SubjectResults(store, rows);
    CollectFrom(rs);
    forall k | 0 <= k < |Collect(rs).value|
      ensures var s := Collect(rs).value[k];
              !SubjectStored(store, s.asjc)
              && Trimmed(s.asjc) && Trimmed(s.top) && Trimmed(s.middle) && Trimmed(s.low)
    {
      var i :| 0 <= i < |rs| && rs[i] == Ok(Some(Collect(rs).value[k]));
      SubjectRowNew(store, rows[i]);
    }
  }

  /** One subject per row whose code is not stored, in row order; equal rows
      each add one. */
  lemma SubjectRowsInOrder(store: Store, rows: seq<Dict>, i: nat, j: nat)
    requires SubjectRows(store, rows).Ok? && i < j < |rows|
    requires SubjectRow(store, rows[i]).Ok? && SubjectRow(store, rows[i]).value.Some?
    requires SubjectRow(store, rows[j]).Ok? && SubjectRow(store, rows[j]).value.Some?
    ensures var rs := SubjectResults(store, rows);
            var out := SubjectRows(store, rows).value;
            Kept(rs[..i]) < Kept(rs[..j]) < |out|
            && out[Kept(rs[..i])] == SubjectRow(store, rows[i]).value.value
            && out[Kept(rs[..j])] == SubjectRow(store, rows[j]).value.value
  {
    var rs := SubjectResults(store, rows);
    CollectAt(rs, i);
    CollectAt(rs, j);
    KeptMonotone(rs, i, j);
  }

  // ================================================================ dict-filling loops

  /** The dict a row loop fills when each row sets one key (a later row
      overwriting an earlier one) and the first row that raises ends the
      loop with its exception. */
  function Fill<K, V>(es: seq<Result<(K, V)>>): Result<map<K, V>>
    decreases |es|
  {
    if es == [] then Ok(map[])
    else
      var m :- Fill(es[..|es| - 1]);
      var e :- es[|es| - 1];
      Ok(m[e.0 := e.1])
  }

  lemma FillStep<K, V>(es: seq<Result<(K, V)>>, i: nat)
    requires i < |es| && Fill(es[..i]).Ok?
    ensures es[i].Err? ==> Fill(es[..i + 1]) == Err(es[i].error)
    ensures es[i].Ok? ==> Fill(es[..i + 1]) == Ok(Fill(es[..i]).value[es[i].value.0 := es[i].value.1])
  {
    assert es[..i + 1][..i] == es[..i] && es[..i + 1][i] == es[i];
  }

  lemma {:induction false} FillErrPrefix<K, V>(es: seq<Result<(K, V)>>, n: nat)
    requires n <= |es| && Fill(es[..n]).Err?
    decreases |es|
    ensures Fill(es) == Fill(es[..n])
  {
    if n < |es| {
      var p := es[..|es| - 1];
      assert p[..n] == es[..n];
      FillErrPrefix(p, n);
    } else {
      assert es[..n] == es;
    }
  }

  /** The loop runs to the end exactly when no row raises. */
  lemma {:induction false} FillOk<K, V>(es: seq<Result<(K, V)>>)
    decreases |es|
    ensures Fill(es).Ok? <==> forall i :: 0 <= i < |es| ==> es[i].Ok?
  {
    if es != [] {
      var p := es[..|es| - 1];
      FillOk(p);
      assert forall i :: 0 <= i < |p| ==> p[i] == es[i];
    }
  }

  /** The keys of the rows, as a set. */
  function KeySet<K, V>(es: seq<Result<(K, V)>>): (r: set<K>)
    ensures forall i :: 0 <= i < |es| && es[i].Ok? ==> es[i].value.0 in r
    ensures forall k :: k in r ==> exists i :: 0 <= i < |es| && es[i].Ok? && es[i].value.0 == k
  {
    set i | 0 <= i < |es| && es[i].Ok? :: es[i].value.0
  }

  /** The dict's keys are the keys of the rows. */
  lemma {:induction false} FillKeys<K, V>(es: seq<Result<(K, V)>>)
    requires Fill(es).Ok?
    decreases |es|
    ensures Fill(es).value.Keys == KeySet(es)
  {
    if es != [] {
      var n := |es| - 1;
      var p := es[..n];
      FillKeys(p);
      var e := es[n].value;
      assert Fill(es).value.Keys == Fill(p).value.Keys + {e.0};
      var all := KeySet(es);
      var before := KeySet(p);
      forall k | k in before ensures k in all {
        var i :| 0 <= i < |p| && p[i].Ok? && p[i].value.0 == k;
        assert es[i] == p[i];
      }
      forall k | k in all ensures k in before + {e.0} {
        var i :| 0 <= i < |es| && es[i].Ok? && es[i].value.0 == k;
        if i < n {
          assert p[i] == es[i];
        }
      }
    }
  }

  /** A key holds the value of the last row that sets it. */
  lemma {:induction false} FillLast<K, V>(es: seq<Result<(K, V)>>, i: nat)
    requires Fill(es).Ok? && i < |es| && es[i].Ok?
    requires forall j :: i < j < |es| && es[j].Ok? ==> es[j].value.0 != es[i].value.0
    decreases |es|
    ensures es[i].value.0 in Fill(es).value && Fill(es).value[es[i].value.0] == es[i].value.1
  {
    var n := |es| - 1;
    var p := es[..n];
    if i < n {
      assert p[i] == es[i];
      assert es[n].value.0 != es[i].value.0;
      forall j | i < j < |p| && p[j].Ok? ensures p[j].value.0 != p[i].value.0 {
        assert p[j] == es[j];
      }
      FillLast(p, i);
    }
  }

  /** Every entry of the dict was set by some row. */
  lemma {:induction false} FillFrom<K, V>(es: seq<Result<(K, V)>>)
    requires Fill(es).Ok?
    decreases |es|
    ensures forall k :: k in Fill(es).value ==>
              exists i :: 0 <= i < |es| && es[i].Ok? && es[i].value == (k, Fill(es).value[k])
  {
    if es != [] {
      var n := |es| - 1;
      var p := es[..n];
      FillFrom(p);
      var m := Fill(p).value;
      var e := es[n].value;
      assert Fill(es).value == m[e.0 := e.1];
      forall k | k in Fill(es).value
        ensures exists i :: 0 <= i < |es| && es[i].Ok? && es[i].value == (k, Fill(es).value[k])
      {
        if k != e.0 {
          var i :| 0 <= i < |p| && p[i].Ok? && p[i].value == (k, m[k]);
          assert es[i] == p[i];
        } else {
          assert es[n].value == (k, Fill(es).value[k]);
        }
      }
    }
  }

  // ================================================================ ext_department_process

  /** `{'name': row['Department En'], 'type': row['Type']}`, keyed by the
      row's abbreviation. The value is evaluated before the key. */
  function DepartmentEntry(row: Dict): Result<(JsonVal, Dict)> {
    var name :- Field(row, "Department En");
    var kind :- Field(row, "Type");
    var abbr :- Field(row, "Department Abbreviation");
    if !Hashable(abbr) then Err(TypeError) else Ok((abbr, [("name", name), ("type", kind)]))
  }

  function DepartmentEntries(rows: seq<Dict>): (r: seq<Result<(JsonVal, Dict)>>)
    ensures |r| == |rows| && forall i :: 0 <= i < |rows| ==> r[i] == DepartmentEntry(rows[i])
  {
    seq(|rows|, i requires 0 <= i < |rows| => DepartmentEntry(rows[i]))
  }

  /** The result of `ext_department_process` over `rows`. */
  function DepartmentMap(rows: seq<Dict>): Result<map<JsonVal, Dict>> {
    Fill(DepartmentEntries(rows))
  }

  /** `ext_department_process(file_path)`: the loop that fills the dict. */
  method ExtDepartmentProcess(rows: seq<Dict>) returns (r: Result<map<JsonVal, Dict>>)
    ensures r == DepartmentMap(rows)
  {
    ghost var es := DepartmentEntries(rows);
    assert es[..0] == [];
    var departments: map<JsonVal, Dict> := map[];
    var failed: Option<PyError> := None;
    var i := 0;
    while i < |rows| && failed.None?
      invariant 0 <= i <= |rows|
      invariant failed.None? ==> Fill(es[..i]) == Ok(departments)
      invariant failed.Some? ==> Fill(es[..i]) == Err(failed.value)
    {
      var row := rows[i];
      var name := Field(row, "Department En");
      var kind := Field(row, "Type");
      var abbr := Field(row, "Department Abbreviation");
      assert es[i] == DepartmentEntry(row);
      FillStep(es, i);
      if name.Err? {
        failed := Some(name.error);
      } else if kind.Err? {
        failed := Some(kind.error);
      } else if abbr.Err? {
        failed := Some(abbr.error);
      } else if !Hashable(abbr.value) {
        failed := Some(TypeError);
      } else {
        departments := departments[abbr.value := [("name", name.value), ("type", kind.value)]];
      }
      i := i + 1;
    }
    if failed.Some? {
      FillErrPrefix(es, i);
      r := Err(failed.value);
    } else {
      assert es[..i] == es;
      r := Ok(departments);
    }
  }

  /** No rows give the empty dict. */
  lemma DepartmentMapEmpty()
    ensures DepartmentMap([]) == Ok(map[])
  {
  }

  /** The dict is built exactly when every row has the three columns and a
      hashable abbreviation. */
  lemma DepartmentMapOk(rows: seq<Dict>)
    ensures DepartmentMap(rows).Ok? <==>
              forall i :: 0 <= i < |rows| ==>
                "Department En" in Keys(rows[i]) && "Type" in Keys(rows[i])
                && "Department Abbreviation" in Keys(rows[i])
                && Hashable(Lookup(rows[i], "Department Abbreviation").value)
  {
    FillOk(DepartmentEntries(rows));
  }

  /** A row's abbreviation. */
  function Abbr(row: Dict): Option<JsonVal> {
    Lookup(row, "Department Abbreviation")
  }

  function DepartmentValue(row: Dict): Dict
    requires Lookup(row, "Department En").Some? && Lookup(row, "Type").Some?
  {
    [("name", Lookup(row, "Department En").value), ("type", Lookup(row, "Type").value)]
  }

  lemma DepartmentEntryOk(row: Dict)
    requires DepartmentEntry(row).Ok?
    ensures Abbr(row).Some? && Lookup(row, "Department En").Some? && Lookup(row, "Type").Some?
    ensures DepartmentEntry(row).value == (Abbr(row).value, DepartmentValue(row))
  {
  }

  lemma DepartmentEntriesOk(rows: seq<Dict>)
    requires DepartmentMap(rows).Ok?
    ensures forall i :: 0 <= i < |rows| ==>
              DepartmentEntries(rows)[i].Ok? && Abbr(rows[i]).Some?
              && Lookup(rows[i], "Department En").Some? && Lookup(rows[i], "Type").Some?
              && DepartmentEntries(rows)[i].value == (Abbr(rows[i]).value, DepartmentValue(rows[i]))
  {
    FillOk(DepartmentEntries(rows));
    forall i | 0 <= i < |rows|
      ensures DepartmentEntries(rows)[i].Ok? && Abbr(rows[i]).Some?
              && Lookup(rows[i], "Department En").Some? && Lookup(rows[i], "Type").Some?
              && DepartmentEntries(rows)[i].value == (Abbr(rows[i]).value, DepartmentValue(rows[i]))
    {
      DepartmentEntryOk(rows[i]);
    }
  }

  /** The dict's keys are exactly the abbreviations of the rows. */
  lemma DepartmentMapKeys(rows: seq<Dict>)
    requires DepartmentMap(rows).Ok?
    ensures forall i :: 0 <= i < |rows| ==> Abbr(rows[i]).Some?
    ensures DepartmentMap(rows).value.Keys == set i | 0 <= i < |rows| :: Abbr(rows[i]).value
  {
    var es := DepartmentEntries(rows);
    DepartmentEntriesOk(rows);
    FillKeys(es);
    var abbrs := set i | 0 <= i < |rows| :: Abbr(rows[i]).value;
    forall a | a in abbrs ensures a in KeySet(es) {
      var i :| 0 <= i < |rows| && Abbr(rows[i]).value == a;
      assert es[i].value.0 == a;
    }
  }

  /** For a repeated abbreviation the last row that has it gives the value. */
  lemma DepartmentMapLast(rows: seq<Dict>, i: nat)
    requires DepartmentMap(rows).Ok? && i < |rows|
    requires forall j :: i < j < |rows| ==> Abbr(rows[j]) != Abbr(rows[i])
    ensures Abbr(rows[i]).Some? && Lookup(rows[i], "Department En").Some? && Lookup(rows[i], "Type").Some?
    ensures Abbr(rows[i]).value in DepartmentMap(rows).value
    ensures DepartmentMap(rows).value[Abbr(rows[i]).value] == DepartmentValue(rows[i])
  {
    var es := DepartmentEntries(rows);
    DepartmentEntriesOk(rows);
    forall j | i < j < |es| && es[j].Ok? ensures es[j].value.0 != es[i].value.0 {
      assert Abbr(rows[j]) != Abbr(rows[i]);
    }
    FillLast(es, i);
    assert es[i].value == (Abbr(rows[i]).value, DepartmentValue(rows[i]));
    assert DepartmentMap(rows) == Fill(es);
  }

  lemma NameTypeKeys(name: JsonVal, kind: JsonVal)
    ensures Keys([("name", name), ("type", kind)]) == ["name", "type"]
  {
    var k := Keys([("name", name), ("type", kind)]);
    assert k[0] == "name" && k[1] == "type";
  }

  /** Every value is a dict with exactly the keys 'name' and 'type'. */
  lemma DepartmentMapValues(rows: seq<Dict>)
    requires DepartmentMap(rows).Ok?
    ensures forall a :: a in DepartmentMap(rows).value ==> Keys(DepartmentMap(rows).value[a]) == ["name", "type"]
  {
    var es := DepartmentEntries(rows);
    DepartmentEntriesOk(rows);
    FillFrom(es);
    var m := Fill(es).value;
    forall a | a in m ensures Keys(m[a]) == ["name", "type"] {
      var i :| 0 <= i < |es| && es[i].Ok? && es[i].value == (a, m[a]);
      assert m[a] == DepartmentValue(rows[i]);
      NameTypeKeys(Lookup(rows[i], "Department En").value, Lookup(rows[i], "Type").value);
    }
  }
}
