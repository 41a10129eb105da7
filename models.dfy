/** The ORM entities that the ETL code reads and builds, and the database
    session as a snapshot of what the queries can find.

    Entities whose attributes the code assigns or whose lists it appends to
    are classes with `var` fields; attributes that are only set at creation
    are `const`. Relationship lists are sequences in insertion order. */
module Models {
  import opened Wrappers
  import opened Py
  import PyStr

  class Country {
    const name: string
    const domain: string
    const region: string
    const subRegion: string

    constructor (name: string, domain: string, region: string, subRegion: string)
      ensures this.name == name && this.domain == domain
      ensures this.region == region && this.subRegion == subRegion
    {
      this.name := name;
      this.domain := domain;
      this.region := region;
      this.subRegion := subRegion;
    }
  }

  /** A subject of the All Science Journal Classification. */
  class Subject {
    /** The code as it was given to the constructor. */
    const asjc: string
    const top: string
    const middle: string
    const low: string

    constructor (asjc: string, top: string, middle: string, low: string)
      ensures this.asjc == asjc && this.top == top
      ensures this.middle == middle && this.low == low
    {
      this.asjc := asjc;
      this.top := top;
      this.middle := middle;
      this.low := low;
    }
  }

  class Keyword {
    const keyword: string

    constructor (keyword: string)
      ensures this.keyword == keyword
    {
      this.keyword := keyword;
    }
  }

  class Fund {
    const idScp: JsonVal
    const agency: JsonVal
    const agencyAcronym: JsonVal

    constructor (idScp: JsonVal, agency: JsonVal, agencyAcronym: JsonVal)
      ensures this.idScp == idScp && this.agency == agency
      ensures this.agencyAcronym == agencyAcronym
    {
      this.idScp := idScp;
      this.agency := agency;
      this.agencyAcronym := agencyAcronym;
    }
  }

  /** One yearly metric of a source; the decimal value is kept as a real. */
  datatype SourceMetric = SourceMetric(kind: string, value: real, year: int)

  /** The address of a source's Scopus page. */
  function SourceUrl(idScp: int): (r: string)
    ensures |r| > |"https://www.scopus.com/sourceid/"|
    ensures r[..|"https://www.scopus.com/sourceid/"|] == "https://www.scopus.com/sourceid/"
    ensures PyStr.ParseInt(r[|"https://www.scopus.com/sourceid/"|..]) == Some(idScp)
  {
    var prefix := "https://www.scopus.com/sourceid/";
    var r := prefix + PyStr.IntToStr(idScp);
    assert r[|prefix|..] == PyStr.IntToStr(idScp);
    PyStr.ParseIntOfIntToStr(idScp);
    r
  }

  class Source {
    const idScp: int
    const title: JsonVal
    const url: string
    const kind: JsonVal
    const issn: JsonVal
    const eIssn: JsonVal
    const isbn: JsonVal
    var publisher: JsonVal
    var country: Country?
    var subjects: seq<Subject>
    var metrics: seq<SourceMetric>

    /** A new source; its url is derived from its Scopus id. */
    constructor (idScp: int, title: JsonVal, kind: JsonVal, issn: JsonVal, eIssn: JsonVal,
                 isbn: JsonVal, publisher: JsonVal)
      ensures this.idScp == idScp && this.title == title && this.kind == kind
      ensures this.issn == issn && this.eIssn == eIssn && this.isbn == isbn
      ensures this.publisher == publisher && url == SourceUrl(idScp)
      ensures country == null && subjects == [] && metrics == []
    {
      this.idScp := idScp;
      this.title := title;
      this.url := SourceUrl(idScp);
      this.kind := kind;
      this.issn := issn;
      this.eIssn := eIssn;
      this.isbn := isbn;
      this.publisher := publisher;
      this.country := null;
      this.subjects := [];
      this.metrics := [];
    }
  }

  class Institution {
    const idScp: int
    const name: JsonVal
    const city: JsonVal
    var country: Country?
    var departments: seq<Department>

    constructor (idScp: int, name: JsonVal, city: JsonVal)
      ensures this.idScp == idScp && this.name == name && this.city == city
      ensures country == null && departments == []
    {
      this.idScp := idScp;
      this.name := name;
      this.city := city;
      this.country := null;
      this.departments := [];
    }

    /** `institution.departments.append(d)`; the relationship also sets the
        department's back reference. */
    method AddDepartment(d: Department)
      modifies this`departments, d
      ensures departments == old(departments) + [d]
      ensures d.institution == this
      ensures country == old(country)
    {
      departments := departments + [d];
      d.institution := this;
    }
  }

  class Department {
    const name: JsonVal
    const abbreviation: JsonVal
    const kind: JsonVal
    var institution: Institution?

    /** The Persian name and the url are accepted but not stored. */
    constructor (name: JsonVal, nameFa: JsonVal, abbreviation: JsonVal, url: JsonVal, kind: JsonVal)
      ensures this.name == name && this.abbreviation == abbreviation && this.kind == kind
      ensures institution == null
    {
      this.name := name;
      this.abbreviation := abbreviation;
      this.kind := kind;
      this.institution := null;
    }
  }

  /** `name` as shown by the entities' `__repr__`: whole when it has at most
      50 characters, otherwise its first 47 followed by "...". */
  function Shorten(name: string): (r: string)
    ensures |r| <= 50
    ensures |name| <= 50 <==> r == name
    ensures |name| > 50 ==> |r| == 50 && r[..47] == name[..47] && r[47..] == "..."
  {
    if |name| <= 50 then name else name[..47] + "..."
  }

  /** `Institution.__repr__`, or "None" for a missing institution: the id,
      ": " and the shortened name. `len()` of a None or int name raises
      TypeError; a list or dict name is not rendered and raises TypeError too. */
  function InstitutionRepr(inst: Institution?): (r: Result<string>)
    ensures inst == null ==> r == Ok("None")
    ensures inst != null ==> (r.Ok? <==> inst.name.Str?)
    ensures r.Err? ==> r.error == TypeError
    ensures inst != null && r.Ok? ==>
              var k := |PyStr.IntToStr(inst.idScp)|;
              k + 2 <= |r.value| <= k + 52
              && PyStr.ParseInt(r.value[..k]) == Some(inst.idScp)
              && r.value[k..k + 2] == ": "
              && r.value[k + 2..] == Shorten(inst.name.s)
  {
    if inst == null then Ok("None")
    else if !inst.name.Str? then Err(TypeError)
    else
      var id := PyStr.IntToStr(inst.idScp);
      var t := id + ": " + Shorten(inst.name.s);
      assert t[..|id|] == id && t[|id|..|id| + 2] == ": " && t[|id| + 2..] == Shorten(inst.name.s);
      PyStr.ParseIntOfIntToStr(inst.idScp);
      Ok(t)
  }

  /** `Department.__repr__`: `len()` of the name first, then the shortened
      name, " @ " and the institution's repr, whose TypeError escapes. */
  method DepartmentRepr(d: Department) returns (r: Result<string>)
    ensures !d.name.Str? ==> r == Err(TypeError)
    ensures d.name.Str? ==> (r.Ok? <==> InstitutionRepr(d.institution).Ok?)
    ensures r.Err? ==> r.error == TypeError
    ensures r.Ok? ==> |Shorten(d.name.s)| <= 50
                      && r.value == Shorten(d.name.s) + " @ " + InstitutionRepr(d.institution).value
  {
    if !d.name.Str? {
      return Err(TypeError);
    }
    var inst := InstitutionRepr(d.institution);
    if inst.Err? {
      return Err(inst.error);
    }
    r := Ok(Shorten(d.name.s) + " @ " + inst.value);
  }

  datatype AuthorProfile = AuthorProfile(address: JsonVal, kind: string)

  class Author {
    const idScp: int
    var idGsc: JsonVal
    var idInstitution: JsonVal
    const first: JsonVal
    const middle: JsonVal
    const last: JsonVal
    const initials: JsonVal
    var firstPref: JsonVal
    var middlePref: JsonVal
    var lastPref: JsonVal
    var initialsPref: JsonVal
    var firstFa: JsonVal
    var lastFa: JsonVal
    var sex: JsonVal
    var kind: JsonVal
    var rank: JsonVal
    var hIndexGsc: JsonVal
    var i10IndexGsc: JsonVal
    /** The Google Scholar retrieval time, as the POSIX timestamp it is read from. */
    var retrievalTimeGsc: Option<int>
    var profiles: seq<AuthorProfile>
    var departments: seq<Department>

    /** A new author from a Scopus record; the preferred names start as the
        Scopus names. */
    constructor (idScp: int, first: JsonVal, middle: JsonVal, last: JsonVal, initials: JsonVal)
      ensures this.idScp == idScp
      ensures this.first == first && this.middle == middle
      ensures this.last == last && this.initials == initials
      ensures firstPref == first && middlePref == middle
      ensures lastPref == last && initialsPref == initials
      ensures idGsc == Null && idInstitution == Null && firstFa == Null && lastFa == Null
      ensures sex == Null && kind == Null && rank == Null
      ensures hIndexGsc == Null && i10IndexGsc == Null && retrievalTimeGsc == None
      ensures profiles == [] && departments == []
    {
      this.idScp := idScp;
      this.idGsc := Null;
      this.idInstitution := Null;
      this.first := first;
      this.middle := middle;
      this.last := last;
      this.initials := initials;
      this.firstPref := first;
      this.middlePref := middle;
      this.lastPref := last;
      this.initialsPref := initials;
      this.firstFa := Null;
      this.lastFa := Null;
      this.sex := Null;
      this.kind := Null;
      this.rank := Null;
      this.hIndexGsc := Null;
      this.i10IndexGsc := Null;
      this.retrievalTimeGsc := None;
      this.profiles := [];
      this.departments := [];
    }
  }

  /** The association of a paper with one of its authors. */
  datatype PaperAuthor = PaperAuthor(authorNo: int, author: Author)

  /** The values a new paper is created with. */
  datatype PaperFields = PaperFields(
    idScp: int, eid: JsonVal, title: JsonVal, kind: JsonVal, typeDescription: JsonVal,
    abstractText: JsonVal, totalAuthor: JsonVal, openAccess: int, citedCnt: JsonVal,
    url: JsonVal, articleNo: JsonVal, doi: JsonVal, volume: JsonVal, issue: JsonVal,
    date: JsonVal, pageRange: JsonVal, retrievalTime: string)

  class Paper {
    const fields: PaperFields
    var totalAuthor: JsonVal
    var source: Source?
    var fund: Fund?
    var keywords: seq<Keyword>
    var authors: seq<PaperAuthor>

    constructor (fields: PaperFields)
      ensures this.fields == fields && totalAuthor == fields.totalAuthor
      ensures source == null && fund == null && keywords == [] && authors == []
    {
      this.fields := fields;
      this.totalAuthor := fields.totalAuthor;
      this.source := null;
      this.fund := null;
      this.keywords := [];
      this.authors := [];
    }
  }

  /** What the session's queries can find, by natural key. No modelled
      operation adds to it: objects are added and committed by the callers. */
  datatype Store = Store(
    countries: map<string, Country>,
    subjects: map<int, Subject>,
    keywords: map<string, Keyword>,
    funds: map<(JsonVal, JsonVal), Fund>,
    sources: map<int, Source>,
    institutions: map<int, Institution>,
    authors: map<int, Author>,
    papers: map<int, Paper>,
    papersByDoi: map<JsonVal, Paper>)

  /** Each stored object carries the natural key it is stored under, as the
      queries that find it filter on that attribute. */
  predicate Consistent(store: Store) {
    (forall k | k in store.countries :: store.countries[k].name == k)
    && (forall k | k in store.keywords :: store.keywords[k].keyword == k)
    && (forall k | k in store.funds :: (store.funds[k].idScp, store.funds[k].agency) == k)
    && (forall k | k in store.sources :: store.sources[k].idScp == k)
    && (forall k | k in store.institutions :: store.institutions[k].idScp == k)
    && (forall k | k in store.authors :: store.authors[k].idScp == k)
    && (forall k | k in store.papers :: store.papers[k].fields.idScp == k)
    && (forall k | k in store.papersByDoi :: store.papersByDoi[k].fields.doi == k)
  }

  /** `Country.name == name`: only a str can equal a stored name. */
  function FindCountry(store: Store, name: JsonVal): (r: Country?)
    ensures r != null <==> name.Str? && name.s in store.countries
    ensures r != null ==> r == store.countries[name.s]
  {
    if name.Str? && name.s in store.countries then store.countries[name.s] else null
  }

  /** The first of `depts` whose attribute matches, as a `filter(...).first()`
      on an institution's departments. */
  function FirstDepartment(depts: seq<Department>, byName: bool, v: JsonVal): (r: Department?)
    decreases |depts|
    ensures r == null <==> forall i :: 0 <= i < |depts| ==> Attr(depts[i], byName) != v
    ensures r != null ==> r in depts && Attr(r, byName) == v
    ensures r != null ==> exists i :: 0 <= i < |depts| && depts[i] == r &&
                            forall j :: 0 <= j < i ==> Attr(depts[j], byName) != v
  {
    if depts == [] then null
    else if Attr(depts[0], byName) == v then depts[0]
    else
      var r := FirstDepartment(depts[1..], byName, v);
      assert forall i :: 0 < i < |depts| ==> depts[i] == depts[1..][i - 1];
      if r != null then
        var i :| 0 <= i < |depts[1..]| && depts[1..][i] == r
                 && forall j :: 0 <= j < i ==> Attr(depts[1..][j], byName) != v;
        assert depts[i + 1] == r;
        assert forall j :: 0 <= j < i + 1 ==> Attr(depts[j], byName) != v by {
          forall j | 0 <= j < i + 1 ensures Attr(depts[j], byName) != v {
            if j > 0 { assert depts[j] == depts[1..][j - 1]; }
          }
        }
        r
      else r
  }

  /** A department's name or abbreviation. */
  function Attr(d: Department, byName: bool): JsonVal {
    if byName then d.name else d.abbreviation
  }

  /** The placeholder the processors store where a required value is missing. */
  const NotAvailable: JsonVal := Str("NOT AVAILABLE")

  /** The name of the pseudo-department that Scopus affiliations are linked to. */
  const Undefined: JsonVal := Str("Undefined")
}
