/** `paper_process`: a Scopus record becomes a Paper, found in the store by
    its Scopus id (or, failing that, by its DOI when the titles agree) or
    created with defaults, and then completed with its source, fund,
    keywords and authors where it lacks them. */
module Papers {
  import opened Wrappers
  import opened Py
  import PyStr
  import Helpers
  import opened Models
  import Sources
  import Funds
  import Keywords
  import Authors

  // ---------------------------------------------------------------- paper url

  /** The `@href` of the first link whose `@ref` is 'scopus', or None when
      no link has that tag. Reading a tag or the address can raise. */
  function PaperUrl(links: seq<JsonVal>): Result<JsonVal>
    decreases |links|
  {
    if links == [] then Ok(Null)
    else
      var ref :- GetItem(links[0], "@ref");
      if ref == Str("scopus") then GetItem(links[0], "@href") else PaperUrl(links[1..])
  }

  /** Every link before the `i`-th has a tag other than 'scopus'. */
  predicate OtherTagsBefore(links: seq<JsonVal>, i: int)
    requires i <= |links|
  {
    forall j :: 0 <= j < i ==> GetItem(links[j], "@ref").Ok? && GetItem(links[j], "@ref").value != Str("scopus")
  }

  /** A url comes from the first link tagged 'scopus'; with every tag read
      and none 'scopus', there is no url. */
  lemma {:induction false} PaperUrlFirst(links: seq<JsonVal>)
    decreases |links|
    ensures PaperUrl(links).Ok? && PaperUrl(links).value != Null ==>
              exists i :: 0 <= i < |links| && GetItem(links[i], "@ref") == Ok(Str("scopus"))
                          && GetItem(links[i], "@href") == PaperUrl(links) && OtherTagsBefore(links, i)
    ensures OtherTagsBefore(links, |links|) ==> PaperUrl(links) == Ok(Null)
  {
    if links != [] {
      var rest := links[1..];
      var ref := GetItem(links[0], "@ref");
      if ref.Ok? && ref.value != Str("scopus") {
        PaperUrlFirst(rest);
        if PaperUrl(rest).Ok? && PaperUrl(rest).value != Null {
          var i :| 0 <= i < |rest| && GetItem(rest[i], "@ref") == Ok(Str("scopus"))
                   && GetItem(rest[i], "@href") == PaperUrl(rest) && OtherTagsBefore(rest, i);
          assert links[i + 1] == rest[i];
          forall j | 0 <= j < i + 1
            ensures GetItem(links[j], "@ref").Ok? && GetItem(links[j], "@ref").value != Str("scopus")
          {
            if j > 0 { assert links[j] == rest[j - 1]; }
          }
          assert PaperUrl(links) == PaperUrl(rest);
          assert GetItem(links[i + 1], "@ref") == Ok(Str("scopus")) && GetItem(links[i + 1], "@href") == PaperUrl(links)
                 && OtherTagsBefore(links, i + 1);
        }
        if OtherTagsBefore(links, |links|) {
          forall j | 0 <= j < |rest|
            ensures GetItem(rest[j], "@ref").Ok? && GetItem(rest[j], "@ref").value != Str("scopus")
          {
            assert rest[j] == links[j + 1];
          }
        }
      } else if ref.Ok? && PaperUrl(links).Ok? && PaperUrl(links).value != Null {
        assert OtherTagsBefore(links, 0);
      }
    }
  }

  /** The url agrees with the check that reports a missing 'paper url':
      with no scopus link there is no url, with one the url is the first
      such link's address, and both stop at the same malformed link. */
  lemma {:induction false} PaperUrlMatchesInspection(links: seq<JsonVal>)
    decreases |links|
    ensures Helpers.NoScopusLink(links) == Ok(true) ==> PaperUrl(links) == Ok(Null)
    ensures Helpers.NoScopusLink(links).Err? ==> PaperUrl(links) == Err(Helpers.NoScopusLink(links).error)
    ensures Helpers.NoScopusLink(links) == Ok(false) ==>
              exists i :: 0 <= i < |links| && GetItem(links[i], "@ref") == Ok(Str("scopus"))
                          && PaperUrl(links) == GetItem(links[i], "@href")
  {
    if links != [] {
      var ref := GetItem(links[0], "@ref");
      if ref.Ok? && ref.value != Str("scopus") {
        PaperUrlMatchesInspection(links[1..]);
        if Helpers.NoScopusLink(links) == Ok(false) {
          var i :| 0 <= i < |links[1..]| && GetItem(links[1..][i], "@ref") == Ok(Str("scopus"))
                   && PaperUrl(links[1..]) == GetItem(links[1..][i], "@href");
          assert links[i + 1] == links[1..][i];
        }
      }
    }
  }

  /** The loop over `data['link']` that stops at the first scopus link. */
  method FindPaperUrl(links: seq<JsonVal>) returns (r: Result<JsonVal>)
    ensures r == PaperUrl(links)
  {
    r := Ok(Null);
    var i := 0;
    var done := false;
    while i < |links| && !done
      invariant 0 <= i <= |links|
      invariant !done ==> PaperUrl(links) == PaperUrl(links[i..])
      invariant done ==> r == PaperUrl(links)
      invariant !done ==> r == Ok(Null)
      decreases |links| - i, if done then 0 else 1
    {
      assert links[i..][0] == links[i] && links[i..][1..] == links[i + 1..];
      var ref := GetItem(links[i], "@ref");
      if ref.Err? {
        r := Err(ref.error);
        done := true;
      } else if ref.value == Str("scopus") {
        r := GetItem(links[i], "@href");
        done := true;
      } else {
        i := i + 1;
      }
    }
  }

  // ---------------------------------------------------------------- scopus id

  /** `int(data['dc:identifier'].split(':')[1])`: only a str has `split`,
      and an identifier without a colon has no second piece. */
  function ScopusIdOf(data: Dict): (r: Result<int>)
    ensures Lookup(data, "dc:identifier").None? ==> r == Err(KeyError)
    ensures Lookup(data, "dc:identifier").Some? && !Lookup(data, "dc:identifier").value.Str? ==> r == Err(AttributeError)
  {
    var ident :- GetItem(Obj(data), "dc:identifier");
    if !ident.Str? then Err(AttributeError) else IdOfIdentifier(ident.s)
  }

  /** `int(s.split(':')[1])`. */
  function IdOfIdentifier(s: string): Result<int> {
    var parts := PyStr.Split(s, ":").value;
    if |parts| < 2 then Err(IndexError) else PyInt(Str(parts[1]))
  }

  /** Splitting text with one colon, and none in either part, gives the two parts. */
  lemma SplitColon(t: string, u: string)
    requires ':' !in t && ':' !in u
    ensures PyStr.Split(t + ":" + u, ":") == Ok([t, u])
  {
    var s := t + ":" + u;
    assert PyStr.OccursAt(s, ":", |t|) by {
      assert s[|t|..|t| + 1] == [s[|t|]];
    }
    forall k | 0 <= k < |t| ensures !PyStr.OccursAt(s, ":", k) {
      assert s[k..k + 1] == [t[k]];
    }
    assert PyStr.Find(s, ":", 0) == Some(|t|);
    assert s[..|t|] == t && s[|t| + 1..] == u;
    forall k: nat | k + 1 <= |u| ensures !PyStr.OccursAt(u, ":", k) {
      assert u[k..k + 1] == [u[k]];
    }
    assert PyStr.Find(u, ":", 0) == None;
    assert PyStr.SplitOn(u, ":") == [u];
    assert PyStr.SplitOn(s, ":") == [t] + PyStr.SplitOn(u, ":") == [t, u];
    assert PyStr.Split(s, ":") == Ok(PyStr.SplitOn(s, ":"));
  }

  /** `str(n)` has no colon. */
  lemma NoColonInInt(n: int)
    ensures ':' !in PyStr.IntToStr(n)
  {
    PyStr.IntToStrShape(n);
    var d := PyStr.NatToStr(if n < 0 then -n else n);
    var s := PyStr.IntToStr(n);
    forall k | 0 <= k < |s| ensures s[k] != ':' {
      if n < 0 && k > 0 { assert s[k] == d[k - 1]; }
    }
  }

  /** An identifier written as 'SCOPUS_ID:<n>' is read back as n. */
  lemma ScopusIdOfText(data: Dict, n: int)
    requires Lookup(data, "dc:identifier") == Some(Str("SCOPUS_ID:" + PyStr.IntToStr(n)))
    ensures ScopusIdOf(data) == Ok(n)
  {
    IdentifierOfText(n);
  }

  lemma IdentifierOfText(n: int)
    ensures IdOfIdentifier("SCOPUS_ID:" + PyStr.IntToStr(n)) == Ok(n)
  {
    var tail := PyStr.IntToStr(n);
    NoColonInInt(n);
    assert "SCOPUS_ID:" + tail == "SCOPUS_ID" + ":" + tail;
    SplitColon("SCOPUS_ID", tail);
    PyIntOfIntToStr(n);
  }

  // ---------------------------------------------------------------- title

  /** `strip(get_key(data, 'dc:title', default='NOT AVAILABLE'), accepted_chars='', max_len=512)`. */
  function PaperTitle(data: Dict): (r: Result<JsonVal>)
    ensures r.Ok? && r.value.Str? ==> |r.value.s| <= 512
  {
    var t :- Helpers.Get(Obj(data), "dc:title", NotAvailable);
    Helpers.Strip(t, "", 512)
  }

  /** A missing or null title becomes 'NOT AVAILABLE'. */
  lemma PaperTitleMissing(data: Dict)
    requires Lookup(data, "dc:title").None? || Lookup(data, "dc:title") == Some(Null)
    ensures PaperTitle(data) == Ok(NotAvailable)
  {
    Helpers.KeyGetDefault(data, "dc:title", false, NotAvailable);
    assert Helpers.Get(Obj(data), "dc:title", NotAvailable) == Ok(NotAvailable);
    StripKept(NotAvailable.s);
  }

  /** A title of at most 512 characters that neither starts nor ends with
      whitespace comes through `strip` unchanged. */
  lemma StripKept(t: string)
    requires 0 < |t| <= 512 && !PyStr.IsSpace(t[0]) && !PyStr.IsSpace(t[|t| - 1])
    ensures Helpers.Strip(Str(t), "", 512) == Ok(Str(t))
  {
    PyStr.StripNoSpaceEnds(t);
  }

  /** A non-empty str title is stripped of surrounding whitespace and cut
      to 512 characters. */
  lemma PaperTitleText(data: Dict, t: string)
    requires Lookup(data, "dc:title") == Some(Str(t)) && t != ""
    ensures PaperTitle(data) == Ok(Str(PyStr.SliceTo(PyStr.Strip(t), 512)))
  {
    assert Helpers.Get(Obj(data), "dc:title", NotAvailable) == Ok(Str(t));
  }

  /** What `paper_process` reads before it queries the store. */
  datatype Header = Header(url: JsonVal, id: int, title: JsonVal)

  function HeaderOf(data: Dict): (r: Result<Header>)
    ensures r.Ok? ==> ScopusIdOf(data) == Ok(r.value.id) && PaperTitle(data) == Ok(r.value.title)
    ensures r.Ok? ==> GetItem(Obj(data), "link").Ok? && Iter(GetItem(Obj(data), "link").value).Ok?
                      && PaperUrl(Iter(GetItem(Obj(data), "link").value).value) == Ok(r.value.url)
    ensures Lookup(data, "link").None? ==> r == Err(KeyError)
  {
    var linkVal :- GetItem(Obj(data), "link");
    var links :- Iter(linkVal);
    var url :- PaperUrl(links);
    var id :- ScopusIdOf(data);
    var title :- PaperTitle(data);
    Ok(Header(url, id, title))
  }

  method ReadHeader(data: Dict) returns (r: Result<Header>)
    ensures r == HeaderOf(data)
  {
    var linkVal := GetItem(Obj(data), "link");
    if linkVal.Err? {
      r := Err(linkVal.error);
    } else {
      var links := Iter(linkVal.value);
      if links.Err? {
        r := Err(links.error);
      } else {
        var url := FindPaperUrl(links.value);
        if url.Err? {
          r := Err(url.error);
        } else {
          var id := ScopusIdOf(data);
          var title := PaperTitle(data);
          if id.Err? {
            r := Err(id.error);
          } else if title.Err? {
            r := Err(title.error);
          } else {
            r := Ok(Header(url.value, id.value, title.value));
          }
        }
      }
    }
  }

  // ---------------------------------------------------------------- lookup

  /** The stored paper a record resolves to, with the doi a new paper would
      get. The doi is read only when no paper has the Scopus id, so its
      reading's outcome is passed as it is. A DOI match whose title differs
      gives no paper and no doi. */
  function Resolve(store: Store, id: int, doi: Result<JsonVal>, title: JsonVal): (r: Result<(Paper?, JsonVal)>)
    requires Consistent(store)
    ensures id in store.papers ==> r == Ok((store.papers[id], Null))
    ensures r.Err? <==> id !in store.papers && doi.Err?
    ensures r.Err? ==> r.error == doi.error
    ensures r.Ok? && r.value.0 != null ==>
              (r.value.0.fields.idScp == id && r.value.0 in store.papers.Values)
              || (id !in store.papers && Truthy(doi.value) && r.value.0.fields.doi == doi.value
                  && r.value.0.fields.title == title && r.value.0 in store.papersByDoi.Values)
    ensures r.Ok? && r.value.0 == null ==>
              id !in store.papers && (r.value.1 == doi.value || r.value.1 == Null)
              && (Truthy(r.value.1) ==> r.value.1 !in store.papersByDoi)
    ensures id !in store.papers && doi.Ok? && Truthy(doi.value) && doi.value in store.papersByDoi ==>
              (store.papersByDoi[doi.value].fields.title == title <==> r.Ok? && r.value.0 != null)
  {
    if id in store.papers then
      assert store.papers[id] in store.papers.Values;
      Ok((store.papers[id], Null))
    else if doi.Err? then Err(doi.error)
    else if !Truthy(doi.value) || doi.value !in store.papersByDoi then Ok((null, doi.value))
    else
      var p := store.papersByDoi[doi.value];
      assert p in store.papersByDoi.Values;
      if p.fields.title != title then Ok((null, Null)) else Ok((p, doi.value))
  }

  // ---------------------------------------------------------------- new paper

  /** The eid a paper is given when the record has none. */
  function DefaultEid(id: int): string {
    "2-s2.0-" + PyStr.IntToStr(id)
  }

  /** The default eid names the Scopus id, as the eid is read back in
      `file_process`. */
  lemma DefaultEidReadBack(id: int)
    ensures PyInt(Str(PyStr.Replace(DefaultEid(id), "2-s2.0-", ""))) == Ok(id)
  {
    var tail := PyStr.IntToStr(id);
    PyStr.IntToStrShape(id);
    var d := PyStr.NatToStr(if id < 0 then -id else id);
    forall k: nat ensures !PyStr.OccursAt(tail, "2-s2.0-", k) {
      if k + 7 <= |tail| {
        assert tail[k..k + 7][1] == tail[k + 1];
        if id < 0 { assert tail[k + 1] == d[k]; }
        assert PyStr.IsDigit(tail[k + 1]);
      }
    }
    PyStr.ReplacePrefix("2-s2.0-", tail);
    PyIntOfIntToStr(id);
  }

  /** The values of a new paper up to its open-access flag. */
  datatype Description = Description(eid: JsonVal, kind: JsonVal, typeDescription: JsonVal,
                                     abstractText: JsonVal, totalAuthor: JsonVal, openAccess: int)

  /** The first keyword arguments of `Paper(...)`, read in order; `int()`
      of the open-access flag can raise. */
  function DescriptionOf(data: Dict, id: int): (r: Result<Description>)
    ensures r.Ok? && (Lookup(data, "eid").None? || Lookup(data, "eid") == Some(Null)) ==> r.value.eid == Str(DefaultEid(id))
    ensures r.Ok? && (Lookup(data, "subtype").None? || Lookup(data, "subtype") == Some(Null)) ==> r.value.kind == Str("na")
    ensures r.Ok? && (Lookup(data, "subtypeDescription").None? || Lookup(data, "subtypeDescription") == Some(Null)) ==>
              r.value.typeDescription == NotAvailable
    ensures r.Ok? && (Lookup(data, "openaccess").None? || Lookup(data, "openaccess") == Some(Null)) ==> r.value.openAccess == 0
  {
    var d := Obj(data);
    var eid :- Helpers.Get(d, "eid", Str(DefaultEid(id)));
    var kind :- Helpers.Get(d, "subtype", Str("na"));
    var typeDescription :- Helpers.Get(d, "subtypeDescription", NotAvailable);
    var abstractText :- Helpers.Get(d, "dc:description", Null);
    var totalAuthor :- Helpers.Get(d, "author-count", Null);
    var oa :- Helpers.Get(d, "openaccess", Num(0));
    var openAccess :- PyInt(oa);
    Ok(Description(eid, kind, typeDescription, abstractText, totalAuthor, openAccess))
  }

  /** The remaining values a new paper reads from the record. */
  datatype Details = Details(citedCnt: JsonVal, articleNo: JsonVal, volume: JsonVal, issue: JsonVal,
                             date: JsonVal, pageRange: JsonVal)

  /** The last keyword arguments of `Paper(...)`; the volume is stripped
      and cut to 45 characters. */
  function DetailsOf(data: Dict): (r: Result<Details>)
    ensures r.Ok? && r.value.volume.Str? ==> |r.value.volume.s| <= 45
  {
    var d := Obj(data);
    var citedCnt :- Helpers.Get(d, "citedby-count", Null);
    var articleNo :- Helpers.Get(d, "article-number", Null);
    var volumeRaw :- Helpers.Get(d, "prism:volume", Null);
    var volume :- Helpers.Strip(volumeRaw, "", 45);
    var issue :- Helpers.Get(d, "prism:issueIdentifier", Null);
    var date :- Helpers.Get(d, "prism:coverDate", Null);
    var pageRange :- Helpers.Get(d, "prism:pageRange", Null);
    Ok(Details(citedCnt, articleNo, volume, issue, date, pageRange))
  }

  /** The values a new paper is created with, read in the order of the
      keyword arguments; the first read that raises decides the exception. */
  function NewPaperFields(data: Dict, h: Header, doi: JsonVal, retrievalTime: string): (r: Result<PaperFields>)
    ensures r.Ok? <==> DescriptionOf(data, h.id).Ok? && DetailsOf(data).Ok?
    ensures r.Ok? ==>
              var a := DescriptionOf(data, h.id).value;
              var b := DetailsOf(data).value;
              r.value == PaperFields(h.id, a.eid, h.title, a.kind, a.typeDescription, a.abstractText, a.totalAuthor,
                                     a.openAccess, b.citedCnt, h.url, b.articleNo, doi, b.volume, b.issue, b.date,
                                     b.pageRange, retrievalTime)
  {
    var a :- DescriptionOf(data, h.id);
    var b :- DetailsOf(data);
    Ok(PaperFields(h.id, a.eid, h.title, a.kind, a.typeDescription, a.abstractText, a.totalAuthor, a.openAccess,
                   b.citedCnt, h.url, b.articleNo, doi, b.volume, b.issue, b.date, b.pageRange, retrievalTime))
  }

  /** A new paper's defaults: the eid names its Scopus id, the type is 'na',
      the type description 'NOT AVAILABLE', the open-access flag 0; the title
      has at most 512 characters and the volume at most 45. */
  lemma NewPaperDefaults(data: Dict, h: Header, doi: JsonVal, retrievalTime: string)
    requires HeaderOf(data) == Ok(h) && NewPaperFields(data, h, doi, retrievalTime).Ok?
    ensures var f := NewPaperFields(data, h, doi, retrievalTime).value;
            (f.title.Str? ==> |f.title.s| <= 512) && (f.volume.Str? ==> |f.volume.s| <= 45)
            && (Lookup(data, "eid").None? || Lookup(data, "eid") == Some(Null) ==> f.eid == Str(DefaultEid(h.id)))
            && (Lookup(data, "subtype").None? || Lookup(data, "subtype") == Some(Null) ==> f.kind == Str("na"))
            && (Lookup(data, "subtypeDescription").None? || Lookup(data, "subtypeDescription") == Some(Null) ==>
                  f.typeDescription == NotAvailable)
            && (Lookup(data, "openaccess").None? || Lookup(data, "openaccess") == Some(Null) ==> f.openAccess == 0)
  {
  }

  // ---------------------------------------------------------------- completion

  /** The separator `keyword_process` is called with by default. */
  const KeywordSeparator: string := "|"

  /** The authors of a paper, one association per (position, author) pair. */
  function Links(rows: seq<(int, Author)>): (r: seq<PaperAuthor>)
    ensures |r| == |rows|
    ensures forall j :: 0 <= j < |rows| ==> r[j].authorNo == rows[j].0 && r[j].author == rows[j].1
  {
    seq(|rows|, j requires 0 <= j < |rows| => PaperAuthor(rows[j].0, rows[j].1))
  }

  /** The loop that appends one association per pair to `paper.authors`. */
  method AppendAuthors(p: Paper, rows: seq<(int, Author)>)
    modifies p
    ensures p.authors == old(p.authors) + Links(rows)
    ensures p.source == old(p.source) && p.fund == old(p.fund)
    ensures p.keywords == old(p.keywords) && p.totalAuthor == old(p.totalAuthor)
  {
    for j := 0 to |rows|
      invariant p.authors == old(p.authors) + Links(rows[..j])
      invariant p.source == old(p.source) && p.fund == old(p.fund)
      invariant p.keywords == old(p.keywords) && p.totalAuthor == old(p.totalAuthor)
    {
      assert Links(rows[..j + 1]) == Links(rows[..j]) + [PaperAuthor(rows[j].0, rows[j].1)];
      p.authors := p.authors + [PaperAuthor(rows[j].0, rows[j].1)];
    }
    assert rows[..|rows|] == rows;
  }

  /** The source `source_process` gives a paper: none exactly when the
      record names no source, otherwise one with the record's source id. */
  predicate SourceFrom(data: Dict, s: Source?) {
    Sources.SourceId(data).Ok?
    && (s == null <==> Sources.SourceId(data).value.None?)
    && (s != null ==> s.idScp == Sources.SourceId(data).value.value)
  }

  /** The fund `fund_process` gives a paper: none exactly when neither a
      fund number nor a sponsor is known, otherwise one with those values. */
  predicate FundFrom(data: Dict, f: Fund?) {
    Funds.FundOf(data).Ok?
    && (f == null <==> Funds.FundOf(data).value.None?)
    && (f != null ==> f.idScp == Funds.FundOf(data).value.value.idScp
                      && f.agency == Funds.FundOf(data).value.value.agency)
  }

  /** The keywords `keyword_process` gives a paper: one per distinct term. */
  predicate KeywordsFrom(store: Store, data: Dict, ks: seq<Keyword>)
    reads ks
  {
    Keywords.KeywordTerms(data, KeywordSeparator).Ok?
    && Keywords.Resolved(store, Keywords.KeywordTerms(data, KeywordSeparator).value, ks)
  }

  /** The exception `source_process` raises on a record, if any: its
      source id cannot be read, or the id is not stored and the new
      source's values cannot be read. */
  function SourceError(store: Store, data: Dict): Option<PyError> {
    match Sources.SourceId(data)
    case Err(e) => Some(e)
    case Ok(id) =>
      if id.Some? && id.value !in store.sources && Sources.NewSourceValues(data).Err?
      then Some(Sources.NewSourceValues(data).error)
      else None
  }

  /** What a paper already holds of the parts `paper_process` completes. */
  datatype Held = Held(source: Source?, fund: Fund?, keywords: seq<Keyword>, authors: seq<PaperAuthor>)

  /** The exception completing the source, fund and keywords of a paper
      that holds `held` raises, if any: that of the first of
      `source_process`, `fund_process` and `keyword_process` that runs (each
      runs only for a part the paper lacks) and raises. */
  function RefsError(store: Store, data: Dict, held: Held): Option<PyError> {
    if held.source == null && SourceError(store, data).Some? then SourceError(store, data)
    else if held.fund == null && Funds.FundOf(data).Err? then Some(Funds.FundOf(data).error)
    else if held.keywords == [] && Keywords.KeywordTerms(data, KeywordSeparator).Err?
    then Some(Keywords.KeywordTerms(data, KeywordSeparator).error)
    else None
  }

  /** The exceptions completing a paper that holds `held` can raise: the
      one of its references, else, when the paper has no authors, those of
      `author_process`. Empty when the completion raises nothing. */
  function CompletionErrors(store: Store, data: Dict, held: Held): set<PyError> {
    if RefsError(store, data, held).Some? then {RefsError(store, data, held).value}
    else if held.authors == [] then Authors.RecordErrors(store, data)
    else {}
  }

  /** `paper.source = paper.source or source_process(db, data)`. */
  method CompleteSource(store: Store, data: Dict, p: Paper) returns (r: Result<bool>)
    requires Consistent(store)
    modifies p
    ensures old(p.source) != null ==> p.source == old(p.source)
    ensures r.Err? <==> old(p.source) == null && SourceError(store, data).Some?
    ensures r.Err? ==> r.error == SourceError(store, data).value
    ensures r.Ok? && old(p.source) == null ==> SourceFrom(data, p.source)
    ensures p.fund == old(p.fund) && p.keywords == old(p.keywords)
    ensures p.authors == old(p.authors) && p.totalAuthor == old(p.totalAuthor)
  {
    r := Ok(true);
    if p.source == null {
      var s := Sources.SourceProcess(store, data);
      if s.Err? {
        r := Err(s.error);
      } else {
        assert SourceFrom(data, s.value);
        p.source := s.value;
      }
    }
  }

  /** `paper.fund = paper.fund or fund_process(db, data)`. */
  method CompleteFund(store: Store, data: Dict, p: Paper) returns (r: Result<bool>)
    requires Consistent(store)
    modifies p
    ensures old(p.fund) != null ==> p.fund == old(p.fund)
    ensures r.Err? <==> old(p.fund) == null && Funds.FundOf(data).Err?
    ensures r.Err? ==> r.error == Funds.FundOf(data).error
    ensures r.Ok? && old(p.fund) == null ==> FundFrom(data, p.fund)
    ensures p.source == old(p.source) && p.keywords == old(p.keywords)
    ensures p.authors == old(p.authors) && p.totalAuthor == old(p.totalAuthor)
  {
    r := Ok(true);
    if p.fund == null {
      var f := Funds.FundProcess(store, data);
      if f.Err? {
        r := Err(f.error);
      } else {
        assert FundFrom(data, f.value);
        p.fund := f.value;
      }
    }
  }

  /** `paper.keywords = paper.keywords or keyword_process(db, data)`. */
  method CompleteKeywords(store: Store, data: Dict, p: Paper) returns (r: Result<bool>)
    requires Consistent(store)
    modifies p
    ensures old(p.keywords) != [] ==> p.keywords == old(p.keywords)
    ensures r.Err? <==> old(p.keywords) == [] && Keywords.KeywordTerms(data, KeywordSeparator).Err?
    ensures r.Err? ==> r.error == Keywords.KeywordTerms(data, KeywordSeparator).error
    ensures r.Ok? && old(p.keywords) == [] ==> KeywordsFrom(store, data, p.keywords)
    ensures p.source == old(p.source) && p.fund == old(p.fund)
    ensures p.authors == old(p.authors) && p.totalAuthor == old(p.totalAuthor)
  {
    r := Ok(true);
    if p.keywords == [] {
      var k := Keywords.KeywordProcess(store, data, KeywordSeparator);
      if k.Err? {
        r := Err(k.error);
      } else {
        assert KeywordsFrom(store, data, k.value);
        p.keywords := k.value;
      }
    }
  }

  /** The authors `author_process` gives a paper, as the rows it returns:
      one row per kept entry of the record, in order, each the stored
      author of the entry's id or a new one made from the entry. */
  predicate AuthorsFrom(store: Store, data: Dict, rows: seq<(int, Author)>)
    reads set j | 0 <= j < |rows| :: rows[j].1
  {
    ListField(data, "author").Ok?
    && var entries := ListField(data, "author").value;
    var kept := Authors.Kept(Authors.IdResults(entries));
    |rows| == |kept| && |rows| <= |entries| && Authors.DistinctAuthors(rows)
    && forall j :: 0 <= j < |kept| ==>
         kept[j].0 < |entries| && Authors.EntryRow(store, entries[kept[j].0], kept[j].1, rows[j])
  }

  /** The references of a paper completed from a record, given what it
      held before: a source, fund or keyword list it had is kept, a missing
      one comes from the record. */
  predicate RefsCompleted(store: Store, data: Dict, p: Paper, source0: Source?, fund0: Fund?, keywords0: seq<Keyword>)
    reads p, p.keywords
  {
    (source0 != null ==> p.source == source0) && (source0 == null ==> SourceFrom(data, p.source))
    && (fund0 != null ==> p.fund == fund0) && (fund0 == null ==> FundFrom(data, p.fund))
    && (keywords0 != [] ==> p.keywords == keywords0) && (keywords0 == [] ==> KeywordsFrom(store, data, p.keywords))
  }

  /** The authors of a paper completed from a record: an author list it had
      is kept, otherwise it gets one association per row of the record's
      authors; either way the author count is the number of its authors. */
  predicate AuthorsCompleted(store: Store, data: Dict, p: Paper, authors0: seq<PaperAuthor>, rows: seq<(int, Author)>)
    reads p, set j | 0 <= j < |rows| :: rows[j].1
  {
    (authors0 != [] ==> p.authors == authors0 && rows == [])
    && (authors0 == [] ==> p.authors == Links(rows) && AuthorsFrom(store, data, rows))
    && p.totalAuthor == Num(|p.authors|)
  }

  predicate Completed(store: Store, data: Dict, p: Paper, source0: Source?, fund0: Fund?,
                      keywords0: seq<Keyword>, authors0: seq<PaperAuthor>, rows: seq<(int, Author)>)
    reads p, p.keywords, set j | 0 <= j < |rows| :: rows[j].1
  {
    RefsCompleted(store, data, p, source0, fund0, keywords0) && AuthorsCompleted(store, data, p, authors0, rows)
  }

  /** Lines 125-127 of `paper_process`, stopping at the first exception. */
  method CompleteRefs(store: Store, data: Dict, p: Paper) returns (r: Result<bool>)
    requires Consistent(store)
    modifies p
    ensures old(p.source) != null ==> p.source == old(p.source)
    ensures old(p.fund) != null ==> p.fund == old(p.fund)
    ensures old(p.keywords) != [] ==> p.keywords == old(p.keywords)
    ensures p.authors == old(p.authors) && p.totalAuthor == old(p.totalAuthor)
    ensures r.Err? <==> RefsError(store, data, Held(old(p.source), old(p.fund), old(p.keywords), old(p.authors))).Some?
    ensures r.Err? ==> r.error == RefsError(store, data, Held(old(p.source), old(p.fund), old(p.keywords), old(p.authors))).value
    ensures r.Ok? ==> RefsCompleted(store, data, p, old(p.source), old(p.fund), old(p.keywords))
  {
    r := CompleteSource(store, data, p);
    if r.Ok? {
      r := CompleteFund(store, data, p);
    }
    if r.Ok? {
      r := CompleteKeywords(store, data, p);
    }
  }

  /** `author_process(db, data)` read as what a paper gets from it: its
      rows, or the exception its first failing entry raises. */
  method ReadAuthors(store: Store, data: Dict) returns (r: Result<seq<(int, Author)>>)
    requires Consistent(store)
    modifies store.institutions.Values, store.authors.Values
    ensures r.Err? <==> Authors.RecordErrors(store, data) != {}
    ensures r.Err? ==> r.error in Authors.RecordErrors(store, data)
    ensures r.Ok? ==> AuthorsFrom(store, data, r.value)
  {
    var rows, newInsts, links, orders := Authors.AuthorProcess(store, data);
    r := rows;
    if r.Ok? {
      BuiltRows(store, data, ListField(data, "author").value, r.value, links, orders, newInsts,
                Authors.View(store, newInsts), old(Authors.StoredStates(store)));
    }
  }

  /** The rows `author_process` builds are those of the record's authors. */
  lemma BuiltRows(store: Store, data: Dict, entries: seq<JsonVal>, rows: seq<(int, Author)>, links: seq<seq<Authors.Link>>,
                  orders: seq<seq<JsonVal>>, insts: set<Institution>, st: map<Institution, Authors.InstState>,
                  ss0: map<int, Authors.AuthorState>)
    requires ListField(data, "author") == Ok(entries)
    requires Authors.Built(store, data, entries, rows, links, orders, insts, st, ss0)
    ensures AuthorsFrom(store, data, rows)
  {
  }

  /** The rows of a record's authors attached to a paper that had none,
      and the author count set. */
  method AttachAuthors(store: Store, data: Dict, p: Paper, rows: seq<(int, Author)>)
    requires p.authors == [] && AuthorsFrom(store, data, rows)
    modifies p
    ensures p.source == old(p.source) && p.fund == old(p.fund) && p.keywords == old(p.keywords)
    ensures AuthorsCompleted(store, data, p, [], rows)
  {
    AppendAuthors(p, rows);
    p.totalAuthor := Num(|p.authors|);
  }

  /** Lines 129-137 of `paper_process`: the authors when the paper has
      none, then the author count. */
  method CompleteAuthors(store: Store, data: Dict, p: Paper) returns (r: Result<seq<(int, Author)>>)
    requires Consistent(store)
    modifies p, store.institutions.Values, store.authors.Values
    ensures p.source == old(p.source) && p.fund == old(p.fund) && p.keywords == old(p.keywords)
    ensures old(p.authors) != [] ==> p.authors == old(p.authors)
    ensures r.Err? <==> old(p.authors) == [] && Authors.RecordErrors(store, data) != {}
    ensures r.Err? ==> r.error in Authors.RecordErrors(store, data)
    ensures r.Ok? ==> AuthorsCompleted(store, data, p, old(p.authors), r.value)
  {
    if p.authors != [] {
      p.totalAuthor := Num(|p.authors|);
      r := Ok([]);
    } else {
      var rows := ReadAuthors(store, data);
      if rows.Err? {
        r := Err(rows.error);
      } else {
        AttachAuthors(store, data, p, rows.value);
        r := Ok(rows.value);
      }
    }
  }

  /** Lines 125-137 of `paper_process`. */
  method Complete(store: Store, data: Dict, p: Paper) returns (r: Result<seq<(int, Author)>>)
    requires Consistent(store)
    modifies p, store.institutions.Values, store.authors.Values
    ensures old(p.source) != null ==> p.source == old(p.source)
    ensures old(p.fund) != null ==> p.fund == old(p.fund)
    ensures old(p.keywords) != [] ==> p.keywords == old(p.keywords)
    ensures old(p.authors) != [] ==> p.authors == old(p.authors)
    ensures r.Err? <==> CompletionErrors(store, data, Held(old(p.source), old(p.fund), old(p.keywords), old(p.authors))) != {}
    ensures r.Err? ==> r.error in CompletionErrors(store, data, Held(old(p.source), old(p.fund), old(p.keywords), old(p.authors)))
    ensures r.Ok? ==> Completed(store, data, p, old(p.source), old(p.fund), old(p.keywords), old(p.authors), r.value)
  {
    var refs := CompleteRefs(store, data, p);
    if refs.Err? {
      r := Err(refs.error);
    } else {
      assert RefsCompleted(store, data, p, old(p.source), old(p.fund), old(p.keywords));
      r := CompleteAuthors(store, data, p);
    }
  }

  // ---------------------------------------------------------------- paper_process

  /** The stored paper a record resolves to, if any: the one stored paper
      `paper_process` may change. */
  function Target(store: Store, data: Dict): (r: set<Paper>)
    requires Consistent(store)
    ensures r <= store.papers.Values + store.papersByDoi.Values
  {
    var d := Helpers.Nullified(data, Helpers.PaperNullTypes);
    TargetOf(store, d, HeaderOf(d))
  }

  /** The stored paper the nullified record `d` whose header reads as `h`
      resolves to, if any. */
  function TargetOf(store: Store, d: Dict, h: Result<Header>): (r: set<Paper>)
    requires Consistent(store)
    ensures r <= store.papers.Values + store.papersByDoi.Values
  {
    if h.Err? then {}
    else
      var m := Resolve(store, h.value.id, Helpers.Get(Obj(d), "prism:doi", Null), h.value.title);
      if m.Ok? && m.value.0 != null then {m.value.0} else {}
  }

  /** `p` is the paper `paper_process` returns for the record `data`: the
      stored paper the nullified record resolves to, else a new paper whose
      fields are read from that record. */
  ghost predicate Yields(store: Store, data: Dict, retrievalTime: string, p: Paper)
    requires Consistent(store)
  {
    var d := Helpers.Nullified(data, Helpers.PaperNullTypes);
    YieldsOf(store, d, HeaderOf(d), retrievalTime, p)
  }

  /** `p` is the paper `paper_process` returns for the nullified record
      `d` whose header reads as `h`. */
  ghost predicate YieldsOf(store: Store, d: Dict, h: Result<Header>, retrievalTime: string, p: Paper)
    requires Consistent(store)
  {
    h.Ok?
    && var m := Resolve(store, h.value.id, Helpers.Get(Obj(d), "prism:doi", Null), h.value.title);
    m.Ok?
    && (if m.value.0 != null then p == m.value.0 else NewPaperFields(d, h.value, m.value.1, retrievalTime) == Ok(p.fields))
  }

  /** A returned paper carries the record's Scopus id, unless it is the
      stored paper found through the record's DOI with the same title. */
  lemma YieldsScopusId(store: Store, data: Dict, retrievalTime: string, p: Paper)
    requires Consistent(store) && Yields(store, data, retrievalTime, p)
    ensures var h := HeaderOf(Helpers.Nullified(data, Helpers.PaperNullTypes)).value;
            p.fields.idScp == h.id
            || (h.id !in store.papers && p in store.papersByDoi.Values && p.fields.title == h.title)
  {
  }

  /** The exceptions `paper_process` can raise on the nullified record `d`
      whose header reads as `h`: the header's, the DOI reading's, else
      those once the record is resolved. */
  function HeaderErrors(store: Store, d: Dict, h: Result<Header>, retrievalTime: string, held: Held): set<PyError>
    requires Consistent(store)
  {
    match h
    case Err(e) => {e}
    case Ok(h) =>
      match Resolve(store, h.id, Helpers.Get(Obj(d), "prism:doi", Null), h.title)
      case Err(e) => {e}
      case Ok(m) => ResolvedErrors(store, d, h, m, retrievalTime, held)
  }

  /** The exceptions `paper_process` can raise once the nullified record
      `d` with header `h` resolves to `m`: those of completing the stored
      paper, else the new paper's values', else those of completing it. */
  function ResolvedErrors(store: Store, d: Dict, h: Header, m: (Paper?, JsonVal), retrievalTime: string, held: Held): set<PyError> {
    if m.0 != null then CompletionErrors(store, d, held)
    else
      match NewPaperFields(d, h, m.1, retrievalTime)
      case Err(e) => {e}
      case Ok(_) => CompletionErrors(store, d, Held(null, null, [], []))
  }

  /** `paper_process` once the record is resolved: the stored paper, else
      a new paper from the record's values, completed. */
  method ProcessResolved(store: Store, d: Dict, h: Header, m: (Paper?, JsonVal), retrievalTime: string)
    returns (r: Result<Paper>, ghost rows: seq<(int, Author)>, ghost held: Held)
    requires Consistent(store)
    modifies if m.0 != null then {m.0} else {}, store.institutions.Values, store.authors.Values
    ensures held == if m.0 != null then Held(old(m.0.source), old(m.0.fund), old(m.0.keywords), old(m.0.authors))
                    else Held(null, null, [], [])
    ensures r.Err? <==> ResolvedErrors(store, d, h, m, retrievalTime, held) != {}
    ensures r.Err? ==> r.error in ResolvedErrors(store, d, h, m, retrievalTime, held)
    ensures r.Ok? && m.0 != null ==>
              r.value == m.0 && Completed(store, d, r.value, held.source, held.fund, held.keywords, held.authors, rows)
    ensures r.Ok? && m.0 == null ==>
              fresh(r.value) && NewPaperFields(d, h, m.1, retrievalTime) == Ok(r.value.fields)
              && Completed(store, d, r.value, null, null, [], [], rows)
  {
    rows, held := [], Held(null, null, [], []);
    if m.0 != null {
      var p := m.0;
      held := Held(p.source, p.fund, p.keywords, p.authors);
      var c := Complete(store, d, p);
      if c.Err? {
        r := Err(c.error);
      } else {
        r, rows := Ok(p), c.value;
      }
    } else {
      var f := NewPaperFields(d, h, m.1, retrievalTime);
      if f.Err? {
        r := Err(f.error);
      } else {
        var p := new Paper(f.value);
        var c := Complete(store, d, p);
        if c.Err? {
          r := Err(c.error);
        } else {
          r, rows := Ok(p), c.value;
        }
      }
    }
  }

  /** `paper_process` once it has read the header of the nullified record
      `d` as `h`: the record is resolved, then the paper completed. */
  method ProcessHeader(store: Store, d: Dict, h: Result<Header>, retrievalTime: string)
    returns (r: Result<Paper>, ghost rows: seq<(int, Author)>, ghost held: Held)
    requires Consistent(store)
    modifies TargetOf(store, d, h), store.institutions.Values, store.authors.Values
    ensures TargetOf(store, d, h) == {} ==> held == Held(null, null, [], [])
    ensures forall q | q in TargetOf(store, d, h) :: held == Held(old(q.source), old(q.fund), old(q.keywords), old(q.authors))
    ensures r.Err? <==> HeaderErrors(store, d, h, retrievalTime, held) != {}
    ensures r.Err? ==> r.error in HeaderErrors(store, d, h, retrievalTime, held)
    ensures r.Ok? ==> YieldsOf(store, d, h, retrievalTime, r.value)
    ensures h.Err? ==> r == Err(h.error)
    ensures r.Ok? && TargetOf(store, d, h) == {} ==> fresh(r.value)
    ensures r.Ok? ==> Completed(store, d, r.value, held.source, held.fund, held.keywords, held.authors, rows)
  {
    rows, held := [], Held(null, null, [], []);
    if h.Err? {
      r := Err(h.error);
    } else {
      var m := Resolve(store, h.value.id, Helpers.Get(Obj(d), "prism:doi", Null), h.value.title);
      if m.Err? {
        r := Err(m.error);
      } else {
        r, rows, held := ProcessResolved(store, d, h.value, m.value, retrievalTime);
      }
    }
  }

  /** `paper_process(db, data, retrieval_time)`: the record is nullified
      with the paper null types; the paper is the stored one of its Scopus
      id, else the stored one of its DOI when the titles agree, else a new
      one from the record's values; then it is completed. The ghost
      results are the author rows attached, if any, and what the stored
      paper the record resolves to held before the call, if there is one. */
  method PaperProcess(store: Store, data: Dict, retrievalTime: string)
    returns (r: Result<Paper>, ghost rows: seq<(int, Author)>, ghost held: Held)
    requires Consistent(store) && UniqueKeys(data)
    modifies Target(store, data), store.institutions.Values, store.authors.Values
    ensures var d := Helpers.Nullified(data, Helpers.PaperNullTypes);
            var h := HeaderOf(d);
            (TargetOf(store, d, h) == {} ==> held == Held(null, null, [], []))
            && (forall q | q in TargetOf(store, d, h) :: held == Held(old(q.source), old(q.fund), old(q.keywords), old(q.authors)))
            && (r.Err? <==> HeaderErrors(store, d, h, retrievalTime, held) != {})
            && (r.Err? ==> r.error in HeaderErrors(store, d, h, retrievalTime, held))
            && (h.Err? ==> r == Err(h.error))
            && (r.Ok? ==> YieldsOf(store, d, h, retrievalTime, r.value))
            && (r.Ok? && TargetOf(store, d, h) == {} ==> fresh(r.value))
            && (r.Ok? ==> Completed(store, d, r.value, held.source, held.fund, held.keywords, held.authors, rows))
  {
    var d := Helpers.Nullify(data, Helpers.PaperNullTypes);
    var h := ReadHeader(d);
    r, rows, held := ProcessHeader(store, d, h, retrievalTime);
  }
}
