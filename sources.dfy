/** `source_process`: the journal, book or conference a paper appeared in,
    found by its Scopus source id or created from the record. */
module Sources {
  import opened Wrappers
  import opened Py
  import PyStr
  import Helpers
  import opened Models

  /** `int(get_key(data, 'source-id'))` inside `try ... except TypeError`:
      `None` when either step raises TypeError (a missing id is None, and
      `int(None)` raises it); any other exception escapes. */
  function SourceId(data: Dict): (r: Result<Option<int>>)
    ensures Helpers.Get(Obj(data), "source-id", Null) == Err(TypeError) ==> r == Ok(None)
    ensures r == Ok(None) <==>
              Helpers.Get(Obj(data), "source-id", Null) == Err(TypeError)
              || (Helpers.Get(Obj(data), "source-id", Null).Ok?
                  && PyInt(Helpers.Get(Obj(data), "source-id", Null).value) == Err(TypeError))
    ensures r.Ok? && r.value.Some? ==>
              Helpers.Get(Obj(data), "source-id", Null).Ok?
              && PyInt(Helpers.Get(Obj(data), "source-id", Null).value) == Ok(r.value.value)
    ensures r.Err? ==> r.error != TypeError
  {
    match Helpers.Get(Obj(data), "source-id", Null)
    case Err(e) => if e == TypeError then Ok(None) else Err(e)
    case Ok(v) =>
      match PyInt(v)
      case Ok(n) => Ok(Some(n))
      case Err(e) => if e == TypeError then Ok(None) else Err(e)
  }

  /** A record without a source id, or with a null one, has no source. */
  lemma MissingSourceId(data: Dict)
    requires Lookup(data, "source-id").None? || Lookup(data, "source-id") == Some(Null)
    ensures SourceId(data) == Ok(None)
  {
    Helpers.KeyGetDefault(data, "source-id", false, Null);
  }

  /** A source id in any wire shape, written as an int or as its decimal
      text, is read back. */
  lemma SourceIdOfWire(data: Dict, n: int, asText: bool, shape: Helpers.Wire)
    requires Lookup(data, "source-id") == Some(Helpers.Encode(if asText then Str(PyStr.IntToStr(n)) else Num(n), shape))
    ensures SourceId(data) == Ok(Some(n))
  {
    var v := if asText then Str(PyStr.IntToStr(n)) else Num(n);
    Helpers.KeyGetDecodesWire(data, "source-id", v, shape, Null);
    PyIntOfIntToStr(n);
  }

  /** The values a new source is created with. */
  datatype SourceValues = SourceValues(title: JsonVal, kind: JsonVal, issn: JsonVal, eIssn: JsonVal, isbn: JsonVal)

  /** The keyword arguments of `Source(...)` in `source_process`, evaluated
      in order: the first that raises decides the exception. */
  function NewSourceValues(data: Dict): Result<SourceValues> {
    var title :- Helpers.Get(Obj(data), "prism:publicationName", NotAvailable);
    var kind :- Helpers.Get(Obj(data), "prism:aggregationType", Null);
    var issnRaw :- Helpers.Get(Obj(data), "prism:issn", Null);
    var issn :- Helpers.Strip(issnRaw, Helpers.IssnChars, 8);
    var eIssnRaw :- Helpers.Get(Obj(data), "prism:eIssn", Null);
    var eIssn :- Helpers.Strip(eIssnRaw, Helpers.IssnChars, 8);
    var isbnRaw :- Helpers.Get(Obj(data), "prism:isbn", Null);
    var isbn :- Helpers.Strip(isbnRaw, Helpers.IssnChars, 13);
    Ok(SourceValues(title, kind, issn, eIssn, isbn))
  }

  /** A str made only of ISSN characters, at most `n` of them. */
  predicate IssnLike(v: JsonVal, n: nat) {
    v.Str? ==> |v.s| <= n && forall c :: c in v.s ==> c in Helpers.IssnChars
  }

  /** A new source's title defaults to 'NOT AVAILABLE'. Its ISSN and e-ISSN
      are at most 8 characters and its ISBN at most 13, all from [0-9xX];
      a value that was not a str (a missing one is None) is kept as it is. */
  lemma NewSourceValuesShape(data: Dict)
    requires NewSourceValues(data).Ok?
    ensures var v := NewSourceValues(data).value;
            IssnLike(v.issn, 8) && IssnLike(v.eIssn, 8) && IssnLike(v.isbn, 13)
    ensures Lookup(data, "prism:publicationName").None? || Lookup(data, "prism:publicationName") == Some(Null)
            ==> NewSourceValues(data).value.title == NotAvailable
  {
    var issnRaw := Helpers.Get(Obj(data), "prism:issn", Null).value;
    var eIssnRaw := Helpers.Get(Obj(data), "prism:eIssn", Null).value;
    var isbnRaw := Helpers.Get(Obj(data), "prism:isbn", Null).value;
    assert IssnLike(Helpers.Strip(issnRaw, Helpers.IssnChars, 8).value, 8);
    assert IssnLike(Helpers.Strip(eIssnRaw, Helpers.IssnChars, 8).value, 8);
    assert IssnLike(Helpers.Strip(isbnRaw, Helpers.IssnChars, 13).value, 13);
    if Lookup(data, "prism:publicationName").None? || Lookup(data, "prism:publicationName") == Some(Null) {
      Helpers.KeyGetDefault(data, "prism:publicationName", false, NotAvailable);
    }
  }

  /** `source_process`: no source when the record has no usable source id;
      the stored source of that id, returned with no field changed; or a
      new source from the record, whose url is built from the id. */
  method SourceProcess(store: Store, data: Dict) returns (r: Result<Source?>)
    requires Consistent(store)
    ensures SourceId(data).Err? ==> r == Err(SourceId(data).error)
    ensures SourceId(data) == Ok(None) ==> r == Ok(null)
    ensures SourceId(data).Ok? && SourceId(data).value.Some? ==>
              var id := SourceId(data).value.value;
              (id in store.sources ==> r == Ok(store.sources[id]))
              && (id !in store.sources ==>
                    (r.Ok? <==> NewSourceValues(data).Ok?)
                    && (r.Err? ==> r.error == NewSourceValues(data).error)
                    && (r.Ok? ==> var v := NewSourceValues(data).value;
                                  r.value != null && fresh(r.value) && r.value.idScp == id
                                  && r.value.url == SourceUrl(id)
                                  && r.value.title == v.title && r.value.kind == v.kind
                                  && r.value.issn == v.issn && r.value.eIssn == v.eIssn
                                  && r.value.isbn == v.isbn && r.value.publisher == Null
                                  && r.value.country == null && r.value.subjects == []
                                  && r.value.metrics == []))
  {
    var sid := SourceId(data);
    if sid.Err? {
      return Err(sid.error);
    }
    if sid.value.None? {
      return Ok(null);
    }
    var id := sid.value.value;
    if id in store.sources {
      return Ok(store.sources[id]);
    }
    var v :- NewSourceValues(data);
    var source := new Source(id, v.title, v.kind, v.issn, v.eIssn, v.isbn, Null);
    return Ok(source);
  }
}
