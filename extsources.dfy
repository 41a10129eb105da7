/** `ext_source_process`: the generator that turns the rows of a source
    list into new Source objects, with their country and their ASJC
    subjects. Rows are dicts from column names to cell values. */
module ExtSources {
  import opened Wrappers
  import opened Py
  import PyStr
  import Helpers
  import opened Models
  import Importers

  // ================================================================ ASJC codes

  /** `{code.strip() for code in raw.split(';') if code.strip()}`: only a
      str can be split, anything else raises AttributeError. */
  function AsjcCodes(raw: JsonVal): (r: Result<set<string>>)
    ensures r.Ok? <==> raw.Str?
    ensures r.Err? ==> r.error == AttributeError
  {
    if raw.Str? then
      var pieces := PyStr.SplitOn(raw.s, ";");
      Ok(set p | p in pieces && PyStr.Strip(p) != "" :: PyStr.Strip(p))
    else Err(AttributeError)
  }

  /** Every code is a non-empty, stripped piece with no ';' in it, and every
      piece that is not blank gives its code. */
  lemma AsjcCodesShape(raw: JsonVal)
    requires raw.Str?
    ensures forall c :: c in AsjcCodes(raw).value ==> c != "" && Importers.Trimmed(c) && ';' !in c
    ensures forall p :: p in PyStr.SplitOn(raw.s, ";") && PyStr.Strip(p) != "" ==> PyStr.Strip(p) in AsjcCodes(raw).value
  {
    var pieces := PyStr.SplitOn(raw.s, ";");
    PyStr.SplitPiecesAvoidSep(raw.s, ';');
    forall c | c in AsjcCodes(raw).value ensures c != "" && Importers.Trimmed(c) && ';' !in c {
      var p :| p in pieces && PyStr.Strip(p) != "" && PyStr.Strip(p) == c;
      Importers.StrippedTrimmed(p);
      StripInside(p, ';');
    }
  }

  /** Stripping only removes characters. */
  lemma StripInside(p: string, x: char)
    requires x !in p
    ensures x !in PyStr.Strip(p)
  {
    PyStr.StripSlice(p);
  }

  /** The subject a code links: `subjects[int(code)]`, or nothing when the
      code is not an int (ValueError) or not a known subject (KeyError). */
  function CodeSubject(code: string, subjects: map<int, Subject>): (r: Option<Subject>)
    ensures r.Some? <==> PyStr.ParseInt(code).Some? && PyStr.ParseInt(code).value in subjects
    ensures r.Some? ==> r.value == subjects[PyStr.ParseInt(code).value]
  {
    match PyStr.ParseInt(code)
    case Some(n) => if n in subjects then Some(subjects[n]) else None
    case None => None
  }

  /** The code-to-subject link of a subject map. */
  function SubjectLink(subjects: map<int, Subject>): string -> Option<Subject> {
    c => CodeSubject(c, subjects)
  }

  /** The items a loop over `order` appends, each code adding its link if it has one. */
  function Linked<T>(order: seq<string>, link: string -> Option<T>): seq<T>
    decreases |order|
  {
    if order == [] then []
    else
      var last := link(order[|order| - 1]);
      Linked(order[..|order| - 1], link) + if last.Some? then [last.value] else []
  }

  lemma LinkedSnoc<T>(order: seq<string>, c: string, link: string -> Option<T>)
    ensures Linked(order + [c], link) == Linked(order, link) + if link(c).Some? then [link(c).value] else []
  {
    assert (order + [c])[..|order|] == order;
  }

  /** The codes that have a link. */
  function LinkingCodes<T>(codes: set<string>, link: string -> Option<T>): (r: set<string>)
    ensures forall c :: c in r <==> c in codes && link(c).Some?
  {
    set c | c in codes && link(c).Some?
  }

  predicate Distinct(order: seq<string>) {
    forall i, j :: 0 <= i < j < |order| ==> order[i] != order[j]
  }

  /** `order` visits each code of `codes` once: a Python set iteration order. */
  ghost predicate Enumerates(order: seq<string>, codes: set<string>) {
    Distinct(order) && forall c :: c in order <==> c in codes
  }

  /** Dropping the last code of an enumeration enumerates the other codes. */
  lemma EnumeratesInit(order: seq<string>, codes: set<string>)
    requires Enumerates(order, codes) && order != []
    ensures Enumerates(order[..|order| - 1], codes - {order[|order| - 1]})
  {
    var init := order[..|order| - 1];
    var rest := codes - {order[|order| - 1]};
    forall c ensures c in init <==> c in rest {
      if c in init {
        var i :| 0 <= i < |init| && init[i] == c;
        assert order[i] == c;
      }
      if c in rest {
        var i :| 0 <= i < |order| && order[i] == c;
        assert init[i] == c;
      }
    }
  }

  /** Whatever the visiting order, one item is appended per linking code. */
  lemma {:induction false} LinkedLength<T>(order: seq<string>, codes: set<string>, link: string -> Option<T>)
    requires Enumerates(order, codes)
    decreases |order|
    ensures |Linked(order, link)| == |LinkingCodes(codes, link)|
  {
    if order != [] {
      var last := order[|order| - 1];
      var rest := codes - {last};
      EnumeratesInit(order, codes);
      LinkedLength(order[..|order| - 1], rest, link);
      if link(last).Some? {
        assert LinkingCodes(codes, link) == LinkingCodes(rest, link) + {last};
      } else {
        assert LinkingCodes(codes, link) == LinkingCodes(rest, link);
      }
    }
  }

  /** An item is appended exactly when one of the visited codes links it. */
  lemma {:induction false} LinkedMembers<T>(order: seq<string>, link: string -> Option<T>, x: T)
    decreases |order|
    ensures x in Linked(order, link) <==> exists c :: c in order && link(c) == Some(x)
  {
    if order != [] {
      var init := order[..|order| - 1];
      var last := order[|order| - 1];
      LinkedMembers(init, link, x);
      if exists c :: c in order && link(c) == Some(x) {
        var c :| c in order && link(c) == Some(x);
        if c != last {
          var i :| 0 <= i < |order| && order[i] == c;
          assert init[i] == c;
        }
      }
      forall c | c in init ensures c in order {
        var i :| 0 <= i < |init| && init[i] == c;
        assert order[i] == c;
      }
    }
  }

  /** A code and its spelling with a leading zero both name subject `n`. */
  lemma LeadingZeroLinks(subjects: map<int, Subject>, n: nat)
    requires n in subjects
    ensures var code := PyStr.NatToStr(n);
            CodeSubject(code, subjects) == Some(subjects[n])
            && CodeSubject("0" + code, subjects) == Some(subjects[n])
  {
    PyStr.ParseIntLeadingZero(n);
    PyStr.ParseIntOfIntToStr(n);
  }

  /** A code and its spelling with a leading zero are two strings of the
      set, so the subject they both name is linked twice. */
  lemma TwoSpellingsLinkTwice(subjects: map<int, Subject>, n: nat)
    requires n in subjects
    ensures var code := PyStr.NatToStr(n);
            code != "0" + code
            && Linked([code, "0" + code], SubjectLink(subjects)) == [subjects[n], subjects[n]]
  {
    LeadingZeroLinks(subjects, n);
    var code := PyStr.NatToStr(n);
    LinkedPair(code, "0" + code, SubjectLink(subjects));
    assert |code| != |"0" + code|;
  }

  lemma LinkedPair<T>(a: string, b: string, link: string -> Option<T>)
    ensures Linked([a, b], link) == (if link(a).Some? then [link(a).value] else [])
                                  + (if link(b).Some? then [link(b).value] else [])
  {
    var order := [a, b];
    assert order[..1] == [a] && order[..1][..0] == [];
    assert Linked([a], link) == [] + (if link(a).Some? then [link(a).value] else []);
  }

  /** The subjects of a source are those the code loop links in some
      iteration order of the code set. */
  ghost predicate LinkedInSomeOrder(linked: seq<Subject>, codes: set<string>, subjects: map<int, Subject>) {
    exists order :: Enumerates(order, codes) && linked == Linked(order, SubjectLink(subjects))
  }

  /** The body of the code loop: `subjects[int(code)]` is appended, and a
      ValueError or KeyError skips the code. */
  method LinkCode(source: Source, code: string, subjects: map<int, Subject>)
    modifies source
    ensures var l := CodeSubject(code, subjects);
            source.subjects == old(source.subjects) + if l.Some? then [l.value] else []
    ensures source.publisher == old(source.publisher) && source.country == old(source.country)
    ensures source.metrics == old(source.metrics)
  {
    var subject := CodeSubject(code, subjects);
    if subject.Some? {
      source.subjects := source.subjects + [subject.value];
    }
  }

  /** `for code in asjc_codes: ... source.subjects.append(subjects[int(code)])`,
      with the set visited in an order the model does not fix; `order` is
      the order taken. */
  method LinkSubjects(source: Source, codes: set<string>, subjects: map<int, Subject>)
    returns (ghost order: seq<string>)
    modifies source
    ensures Enumerates(order, codes)
    ensures source.subjects == old(source.subjects) + Linked(order, SubjectLink(subjects))
    ensures source.publisher == old(source.publisher) && source.country == old(source.country)
    ensures source.metrics == old(source.metrics)
  {
    ghost var link := SubjectLink(subjects);
    ghost var linked: seq<Subject> := [];
    var left := codes;
    order := [];
    while left != {}
      invariant left <= codes
      invariant Distinct(order)
      invariant forall c :: c in order <==> c in codes && c !in left
      invariant linked == Linked(order, link)
      invariant source.subjects == old(source.subjects) + linked
      invariant source.publisher == old(source.publisher) && source.country == old(source.country)
      invariant source.metrics == old(source.metrics)
      decreases |left|
    {
      var code :| code in left;
      ghost var l := CodeSubject(code, subjects);
      ghost var added := if l.Some? then [l.value] else [];
      LinkCode(source, code, subjects);
      assert link(code) == l;
      LinkedSnoc(order, code, link);
      assert old(source.subjects) + linked + added == old(source.subjects) + (linked + added);
      linked := linked + added;
      order := order + [code];
      left := left - {code};
    }
  }

  // ================================================================ one row

  /** The values a new source gets from its row. */
  datatype SourceData = SourceData(
    idScp: int, title: JsonVal, kind: JsonVal, issn: JsonVal, eIssn: JsonVal,
    publisher: JsonVal, country: Country?, codes: set<string>)

  /** `int(row['id_scp'])` inside `try ... except TypeError`: a None id gives
      `None` (the row is skipped); a missing column raises KeyError and a
      str that is not an int raises ValueError, neither of them caught. */
  function SourceId(row: Dict): (r: Result<Option<int>>)
    ensures "id_scp" !in Keys(row) ==> r == Err(KeyError)
    ensures Lookup(row, "id_scp") == Some(Null) ==> r == Ok(None)
    ensures r.Ok? && r.value.Some? ==>
              Lookup(row, "id_scp").Some? && PyInt(Lookup(row, "id_scp").value) == Ok(r.value.value)
    ensures r.Err? ==> r.error != TypeError
  {
    var v :- Importers.Field(row, "id_scp");
    match PyInt(v)
    case Ok(n) => Ok(Some(n))
    case Err(e) => if e == TypeError then Ok(None) else Err(e)
  }

  /** The source's country: looked up by its folded name when that is
      truthy, else left unset; a name that is not stored gives none. */
  function SourceCountry(store: Store, row: Dict): Result<Country?> {
    var name :- Helpers.CountryNames(Importers.Cell(row, "country", Null));
    Ok(if Truthy(name) then FindCountry(store, name) else null)
  }

  /** What one row contributes, once nullified: nothing when it has no id
      or its source is stored, else the values of a new source. */
  function SourceFields(store: Store, srcType: JsonVal, row: Dict): Result<Option<SourceData>> {
    var id :- SourceId(row);
    if id.None? || id.value in store.sources then Ok(None)
    else
      var d :- NewSourceData(store, srcType, row, id.value);
      Ok(Some(d))
  }

  /** The arguments of `Source(...)` that come from the row. */
  datatype SourceArgs = SourceArgs(title: JsonVal, kind: JsonVal, issn: JsonVal, eIssn: JsonVal, publisher: JsonVal)

  /** The keyword arguments of `Source(...)`, evaluated in order. */
  function NewSourceArgs(srcType: JsonVal, row: Dict): SourceArgs {
    var kind := Importers.Cell(row, "type", Null);
    SourceArgs(Importers.Cell(row, "title", NotAvailable), if Truthy(kind) then kind else srcType,
               Importers.Cell(row, "issn", Null), Importers.Cell(row, "e_issn", Null),
               Importers.Cell(row, "publisher", Null))
  }

  /** The set of ASJC codes of the row's 'asjc' column, '' when missing. */
  function SourceCodes(row: Dict): Result<set<string>> {
    AsjcCodes(Importers.Cell(row, "asjc", Str("")))
  }

  /** The new source's values, evaluated in the order of the source: the
      constructor's arguments, then the country, then the codes. */
  function NewSourceData(store: Store, srcType: JsonVal, row: Dict, id: int): Result<SourceData> {
    var a := NewSourceArgs(srcType, row);
    var country :- SourceCountry(store, row);
    var codes :- SourceCodes(row);
    Ok(SourceData(id, a.title, a.kind, a.issn, a.eIssn, a.publisher, country, codes))
  }

  function SourceRow(store: Store, srcType: JsonVal, raw: Dict): Result<Option<SourceData>> {
    SourceFields(store, srcType, Helpers.Nullified(raw, Helpers.NullTypes))
  }

  function SourceResults(store: Store, srcType: JsonVal, rows: seq<Dict>): (r: seq<Result<Option<SourceData>>>)
    ensures |r| == |rows|
  {
    if rows == [] then []
    else SourceResults(store, srcType, rows[..|rows| - 1]) + [SourceRow(store, srcType, rows[|rows| - 1])]
  }

  lemma {:induction false} SourceResultsAt(store: Store, srcType: JsonVal, rows: seq<Dict>, i: nat)
    requires i < |rows|
    ensures SourceResults(store, srcType, rows)[i] == SourceRow(store, srcType, rows[i])
    decreases |rows|
  {
    if i < |rows| - 1 {
      assert rows[..|rows| - 1][i] == rows[i];
      SourceResultsAt(store, srcType, rows[..|rows| - 1], i);
    }
  }

  /** Reads row `i` of the file: the element the generator sees there. */
  method ReadSourceRow(store: Store, srcType: JsonVal, rows: seq<Dict>, i: nat) returns (x: Result<Option<SourceData>>)
    requires i < |rows|
    ensures x == SourceResults(store, srcType, rows)[i]
  {
    x := SourceRow(store, srcType, rows[i]);
    SourceResultsAt(store, srcType, rows, i);
  }

  /** What the generator hands out over `rows`. */
  function SourceRun(store: Store, srcType: JsonVal, rows: seq<Dict>): Importers.Run<SourceData> {
    Importers.Generate(SourceResults(store, srcType, rows))
  }

  /** A null-looking id skips the row. */
  lemma NullIdSkipped(store: Store, srcType: JsonVal, raw: Dict)
    requires UniqueKeys(raw)
    requires Lookup(raw, "id_scp").Some? && Lookup(raw, "id_scp").value in Helpers.NullTypes
    ensures SourceRow(store, srcType, raw) == Ok(None)
  {
    Helpers.NullifiedLookup(raw, Helpers.NullTypes, "id_scp");
  }

  /** A row without an id column raises KeyError. */
  lemma MissingIdRaises(store: Store, srcType: JsonVal, raw: Dict)
    requires "id_scp" !in Keys(raw)
    ensures SourceRow(store, srcType, raw) == Err(KeyError)
  {
    Helpers.NullifiedKeys(raw, Helpers.NullTypes);
  }

  /** A row whose source is stored yields nothing. */
  lemma StoredSkipped(store: Store, srcType: JsonVal, raw: Dict, v: JsonVal)
    requires UniqueKeys(raw) && Lookup(raw, "id_scp") == Some(v) && v !in Helpers.NullTypes
    requires PyInt(v).Ok? && PyInt(v).value in store.sources
    ensures SourceRow(store, srcType, raw) == Ok(None)
  {
    Helpers.NullifiedLookup(raw, Helpers.NullTypes, "id_scp");
  }

  /** A new source is one the store does not have, under the row's id. */
  lemma NewSourceId(store: Store, srcType: JsonVal, row: Dict)
    requires SourceFields(store, srcType, row).Ok? && SourceFields(store, srcType, row).value.Some?
    ensures var d := SourceFields(store, srcType, row).value.value;
            d.idScp !in store.sources && SourceId(row) == Ok(Some(d.idScp))
  {
  }

  /** Over a whole file, only sources the store does not have are handed
      out. */
  lemma SourceRunNew(store: Store, srcType: JsonVal, rows: seq<Dict>)
    ensures forall k :: 0 <= k < |SourceRun(store, srcType, rows).items| ==>
              SourceRun(store, srcType, rows).items[k].idScp !in store.sources
  {
    var rs := SourceResults(store, srcType, rows);
    Importers.GenerateFrom(rs);
    forall k | 0 <= k < |SourceRun(store, srcType, rows).items|
      ensures SourceRun(store, srcType, rows).items[k].idScp !in store.sources
    {
      var i :| 0 <= i < |rs| && rs[i] == Ok(Some(SourceRun(store, srcType, rows).items[k]));
      SourceResultsAt(store, srcType, rows, i);
      NewSourceId(store, srcType, Helpers.Nullified(rows[i], Helpers.NullTypes));
    }
  }

  /** The title defaults to 'NOT AVAILABLE', the type falls back to
      `src_type` when the row's is falsy, and the other columns are taken
      as they are. */
  lemma NewSourceDefaults(srcType: JsonVal, row: Dict)
    ensures var a := NewSourceArgs(srcType, row);
            (Lookup(row, "title").None? || Lookup(row, "title") == Some(Null) ==> a.title == NotAvailable)
            && (Lookup(row, "type").None? || Lookup(row, "type") == Some(Null) ==> a.kind == srcType)
            && (Truthy(a.kind) || a.kind == srcType)
            && (Lookup(row, "issn") == Some(a.issn) || a.issn == Null)
  {
  }

  /** A row without ASJC codes links no subject. */
  lemma NoCodes(row: Dict)
    requires Lookup(row, "asjc").None? || Lookup(row, "asjc") == Some(Null)
    ensures SourceCodes(row) == Ok({})
  {
    assert Importers.Cell(row, "asjc", Str("")) == Str("");
    assert PyStr.Find("", ";", 0).None?;
    assert PyStr.SplitOn("", ";") == [""];
    assert PyStr.Strip("") == "";
    var codes := set p | p in [""] && PyStr.Strip(p) != "" :: PyStr.Strip(p);
    assert codes == {};
  }

  /** On a CSV row the codes are read from a str, so reading them never raises. */
  lemma CsvCodes(row: Dict)
    requires Importers.CsvRow(row)
    ensures SourceCodes(row).Ok?
  {
    if Lookup(row, "asjc").Some? {
      var v := Lookup(row, "asjc").value;
      var i :| 0 <= i < |row| && row[i] == ("asjc", v);
    }
  }

  /** The country is set only from a truthy folded name, and is that name's
      stored country, or none when no country has that name. */
  lemma SourceCountrySpec(store: Store, row: Dict)
    requires Consistent(store) && SourceCountry(store, row).Ok?
    ensures var c := SourceCountry(store, row).value;
            var name := Helpers.CountryNames(Importers.Cell(row, "country", Null)).value;
            (c != null <==> Truthy(name) && name.Str? && name.s in store.countries)
            && (c != null ==> c == store.countries[name.s] && c.name == name.s)
  {
  }

  // ================================================================ the generator

  /** `source` was built from `d`: the constructor's values, the row's country,
      and one subject per linking code. */
  ghost predicate Built(source: Source, d: SourceData, subjects: map<int, Subject>)
    reads source
  {
    source.idScp == d.idScp && source.title == d.title && source.kind == d.kind
    && source.issn == d.issn && source.eIssn == d.eIssn && source.isbn == Null
    && source.publisher == d.publisher && source.url == SourceUrl(d.idScp)
    && source.country == d.country && source.metrics == []
    && LinkedInSomeOrder(source.subjects, d.codes, subjects)
  }

  /** The body of the row loop for a row that yields a source. */
  method NewSource(d: SourceData, subjects: map<int, Subject>) returns (source: Source)
    ensures fresh(source) && Built(source, d, subjects)
  {
    source := new Source(d.idScp, d.title, d.kind, d.issn, d.eIssn, Null, d.publisher);
    source.country := d.country;
    ghost var order := LinkSubjects(source, d.codes, subjects);
    assert source.subjects == Linked(order, SubjectLink(subjects));
  }

  /** The sources yielded so far were built, one by one, from the values
      the generator has handed out so far. */
  ghost predicate AllBuilt(sources: seq<Source>, items: seq<SourceData>, subjects: map<int, Subject>)
    reads sources
  {
    |sources| == |items| && forall k :: 0 <= k < |sources| ==> Built(sources[k], items[k], subjects)
  }

  lemma AllBuiltAppend(sources: seq<Source>, items: seq<SourceData>, source: Source, d: SourceData,
                       subjects: map<int, Subject>)
    requires AllBuilt(sources, items, subjects) && Built(source, d, subjects)
    ensures AllBuilt(sources + [source], items + [d], subjects)
  {
    forall k | 0 <= k < |sources| + 1
      ensures Built((sources + [source])[k], (items + [d])[k], subjects)
    {
      if k < |sources| {
        assert (sources + [source])[k] == sources[k] && (items + [d])[k] == items[k];
      } else {
        assert (sources + [source])[k] == source && (items + [d])[k] == d;
      }
    }
  }

  /** One pass of the row loop: the row raises, yields nothing, or yields
      a new source built from its values. */
  method SourceStep(ghost rs: seq<Result<Option<SourceData>>>, i: nat, x: Result<Option<SourceData>>,
                    subjects: map<int, Subject>, yielded: seq<Source>, ghost items: seq<SourceData>)
    returns (next: seq<Source>, error: Option<PyError>, ghost items': seq<SourceData>)
    requires i < |rs| && rs[i] == x && Importers.Generate(rs[..i]) == Importers.Run(items, None)
    requires AllBuilt(yielded, items, subjects)
    ensures Importers.Generate(rs[..i + 1]) == Importers.Run(items', error)
    ensures AllBuilt(next, items', subjects)
    ensures |yielded| <= |next| <= |yielded| + 1 && next[..|yielded|] == yielded
    ensures |next| > |yielded| ==> fresh(next[|yielded|])
  {
    Importers.GenerateStep(rs, i);
    next, error, items' := yielded, None, items;
    match x {
      case Err(e) =>
        error := Some(e);
      case Ok(None) =>
      case Ok(Some(d)) =>
        var source := NewSource(d, subjects);
        AllBuiltAppend(yielded, items, source, d, subjects);
        next, items' := yielded + [source], items + [d];
        assert next[..|yielded|] == yielded;
    }
  }

  /** `ext_source_process(db, file_path, src_type)`: the sources yielded up
      to the first row that raises, and that row's exception. */
  method ExtSourceProcess(store: Store, srcType: JsonVal, rows: seq<Dict>)
    returns (yielded: seq<Source>, error: Option<PyError>)
    ensures var g := SourceRun(store, srcType, rows);
            error == g.error && |yielded| == |g.items|
            && forall k :: 0 <= k < |yielded| ==> fresh(yielded[k]) && Built(yielded[k], g.items[k], store.subjects)
    ensures forall k :: 0 <= k < |yielded| ==> yielded[k].idScp !in store.sources
  {
    ghost var rs := SourceResults(store, srcType, rows);
    ghost var items: seq<SourceData> := [];
    assert rs[..0] == [];
    yielded, error := [], None;
    var i := 0;
    while i < |rows| && error.None?
      invariant 0 <= i <= |rows|
      invariant Importers.Generate(rs[..i]) == Importers.Run(items, error)
      invariant AllBuilt(yielded, items, store.subjects)
      invariant forall k :: 0 <= k < |yielded| ==> fresh(yielded[k])
    {
      var x := ReadSourceRow(store, srcType, rows, i);
      ghost var before := yielded;
      yielded, error, items := SourceStep(rs, i, x, store.subjects, yielded, items);
      forall k | 0 <= k < |yielded| ensures fresh(yielded[k]) {
        if k < |before| {
          assert yielded[k] == yielded[..|before|][k] == before[k];
        } else {
          assert k == |before| && yielded[k] == yielded[|before|];
        }
      }
      i := i + 1;
    }
    if error.Some? {
      Importers.GenerateErrPrefix(rs, i);
    } else {
      assert rs[..i] == rs;
    }
    SourceRunNew(store, srcType, rows);
  }
}
