/** `ext_faculty_process`: the faculty file of one institution is read row
    by row. The stored author a row names receives the row's details and
    profiles, is linked to the row's departments of the institution (made
    from the department file where the institution lacks them), and loses
    one occurrence of the institution's 'Undefined' department. */
module ExtFaculty {
  import opened Wrappers
  import opened Py
  import PyStr
  import Helpers
  import opened Models
  import Importers

  // ================================================================ pieces

  /** The non-empty pieces of a split, in order: the ones the loops over
      `split(',')` do not skip. */
  function NonEmpty(ps: seq<string>): (r: seq<string>)
    decreases |ps|
    ensures |r| <= |ps|
  {
    if ps == [] then []
    else NonEmpty(ps[..|ps| - 1]) + if ps[|ps| - 1] != "" then [ps[|ps| - 1]] else []
  }

  lemma NonEmptySnoc(ps: seq<string>, p: string)
    ensures NonEmpty(ps + [p]) == NonEmpty(ps) + if p != "" then [p] else []
  {
    assert (ps + [p])[..|ps|] == ps;
  }

  /** A piece is kept exactly when it occurs and is not empty. */
  lemma {:induction false} NonEmptyMembers(ps: seq<string>, x: string)
    decreases |ps|
    ensures x in NonEmpty(ps) <==> x in ps && x != ""
  {
    if ps != [] {
      var p := ps[..|ps| - 1];
      NonEmptyMembers(p, x);
      assert ps == p + [ps[|ps| - 1]];
    }
  }

  /** The kept pieces of a prefix are a prefix of the kept pieces. */
  lemma {:induction false} NonEmptyPrefix(ps: seq<string>, i: nat)
    requires i <= |ps|
    decreases |ps|
    ensures |NonEmpty(ps[..i])| <= |NonEmpty(ps)| && NonEmpty(ps)[..|NonEmpty(ps[..i])|] == NonEmpty(ps[..i])
  {
    if i < |ps| {
      var p := ps[..|ps| - 1];
      assert p[..i] == ps[..i];
      NonEmptyPrefix(p, i);
    } else {
      assert ps[..i] == ps;
    }
  }

  // ================================================================ which rows

  /** The Scopus id of the row's faculty member, read from the nullified
      row: `None` for a row without a Scopus id or without departments,
      otherwise `int()` of the first comma-separated id. */
  function FacultyId(row: Dict): Result<Option<int>> {
    var sid :- Importers.Field(row, "Scopus ID");
    if !Truthy(sid) then Ok(None)
    else
      var depts :- Importers.Field(row, "Departments");
      if !Truthy(depts) then Ok(None)
      else if !sid.Str? then Err(AttributeError)
      else
        var n :- PyInt(Str(PyStr.SplitOn(sid.s, ",")[0]));
        Ok(Some(n))
  }

  /** A row whose Scopus id cell holds one of the null markers is skipped,
      whatever else it holds. */
  lemma NullIdSkipped(raw: Dict, v: JsonVal)
    requires UniqueKeys(raw) && Lookup(raw, "Scopus ID") == Some(v) && v in Helpers.NullTypes
    ensures FacultyId(Helpers.Nullified(raw, Helpers.NullTypes)) == Ok(None)
  {
    Helpers.NullifiedLookup(raw, Helpers.NullTypes, "Scopus ID");
  }

  /** A row with a Scopus id whose departments cell holds a null marker is
      skipped. */
  lemma NullDepartmentsSkipped(raw: Dict, v: JsonVal)
    requires UniqueKeys(raw) && Lookup(raw, "Departments") == Some(v) && v in Helpers.NullTypes
    requires "Scopus ID" in Keys(raw)
    ensures FacultyId(Helpers.Nullified(raw, Helpers.NullTypes)) == Ok(None)
  {
    Helpers.NullifiedLookup(raw, Helpers.NullTypes, "Departments");
    Helpers.NullifiedKeys(raw, Helpers.NullTypes);
  }

  /** Of several comma-separated ids the first is the one read. */
  lemma FacultyIdFirst(row: Dict, n: nat, rest: string)
    requires Lookup(row, "Scopus ID") == Some(Str(PyStr.IntToStr(n) + "," + rest))
    requires Lookup(row, "Departments").Some? && Truthy(Lookup(row, "Departments").value)
    ensures FacultyId(row) == Ok(Some(n))
  {
    FirstPiece(n, rest);
    PyStr.ParseIntOfIntToStr(n);
    assert "Scopus ID" in Keys(row) && "Departments" in Keys(row);
  }

  /** The first piece of `str(n) + ',' + rest` split on commas is `str(n)`. */
  lemma FirstPiece(n: nat, rest: string)
    ensures PyStr.SplitOn(PyStr.IntToStr(n) + "," + rest, ",")[0] == PyStr.IntToStr(n)
  {
    var d := PyStr.IntToStr(n);
    var s := d + "," + rest;
    PyStr.IntToStrShape(n);
    assert s[..|d|] == d;
    NoCommaBefore(d, s);
    assert PyStr.OccursAt(s, ",", |d|) by {
      assert s[|d|..|d| + 1] == ",";
    }
    FindFrom(s, ",", 0, |d|);
    assert s[..|d|] == d;
  }

  /** A comma does not occur within the digits that start `s`. */
  lemma NoCommaBefore(d: string, s: string)
    requires PyStr.AllDigits(d) && |d| <= |s| && s[..|d|] == d
    ensures forall k :: 0 <= k < |d| ==> !PyStr.OccursAt(s, ",", k)
  {
    forall k | 0 <= k < |d| ensures !PyStr.OccursAt(s, ",", k) {
      assert s[k] == d[k];
      assert s[k..k + 1] == [s[k]];
    }
  }

  /** `find` scanning from `from` stops at the first occurrence `i`. */
  lemma {:induction false} FindFrom(s: string, sep: string, from: nat, i: nat)
    requires from <= i && PyStr.OccursAt(s, sep, i)
    requires forall k :: from <= k < i ==> !PyStr.OccursAt(s, sep, k)
    decreases i - from
    ensures PyStr.Find(s, sep, from) == Some(i)
  {
    if from < i {
      assert !PyStr.OccursAt(s, sep, from);
      assert from + |sep| <= i + |sep| <= |s|;
      FindFrom(s, sep, from + 1, i);
    }
  }

  /** The row's faculty member: the stored author with the row's Scopus id,
      or `None` for a row that is skipped. */
  function Faculty(store: Store, raw: Dict): Result<Option<Author>> {
    var id :- FacultyId(Helpers.Nullified(raw, Helpers.NullTypes));
    if id.Some? && id.value in store.authors then Ok(Some(store.authors[id.value])) else Ok(None)
  }

  // ================================================================ details

  /** The attributes of an author that a faculty row assigns. */
  datatype Record = Record(
    idGsc: JsonVal, idInstitution: JsonVal,
    firstPref: JsonVal, middlePref: JsonVal, lastPref: JsonVal, initialsPref: JsonVal,
    firstFa: JsonVal, lastFa: JsonVal, sex: JsonVal, kind: JsonVal, rank: JsonVal,
    retrievalTimeGsc: Option<int>, hIndexGsc: JsonVal, i10IndexGsc: JsonVal)

  function RecordOf(a: Author): Record
    reads a`idGsc, a`idInstitution, a`firstPref, a`middlePref, a`lastPref, a`initialsPref, a`firstFa, a`lastFa
    reads a`sex, a`kind, a`rank, a`retrievalTimeGsc, a`hIndexGsc, a`i10IndexGsc
  {
    Record(a.idGsc, a.idInstitution, a.firstPref, a.middlePref, a.lastPref, a.initialsPref,
           a.firstFa, a.lastFa, a.sex, a.kind, a.rank, a.retrievalTimeGsc, a.hIndexGsc, a.i10IndexGsc)
  }

  /** `get_key(row, k)` on the CSV row. */
  function Get(row: Dict, k: string): JsonVal {
    Importers.Cell(row, k, Null)
  }

  /** `get_key(row, k) or kept`. */
  function OrKeep(v: JsonVal, kept: JsonVal): JsonVal {
    if Truthy(v) then v else kept
  }

  const FacultyType: JsonVal := Str("Faculty")

  /** `get_key(row, 'Sex')`, lower-cased when it is 'M' or 'F'; anything
      else leaves the author's sex as it was. */
  function Sex(row: Dict, kept: JsonVal): JsonVal {
    var sex := Get(row, "Sex");
    if sex == Str("M") || sex == Str("F") then Str(PyStr.Lower(sex.s)) else kept
  }

  /** Lines 104-132: the author's record after the details of the row, and
      the exception `int()` raises on a retrieval time that is not an int
      literal, which leaves the Google Scholar metrics as they were. */
  function Detailed(before: Record, row: Dict): (Record, Option<PyError>) {
    Scholar(Named(before, row), row)
  }

  /** Lines 104-119. */
  function Named(before: Record, row: Dict): Record {
    before.(
      idGsc := Get(row, "Google Scholar ID"),
      idInstitution := Get(row, "Institution ID"),
      firstPref := OrKeep(Get(row, "First En"), before.firstPref),
      middlePref := OrKeep(Get(row, "Middle En"), before.middlePref),
      lastPref := OrKeep(Get(row, "Last En"), before.lastPref),
      initialsPref := OrKeep(Get(row, "Initials En"), before.initialsPref),
      firstFa := Get(row, "First Fa"),
      lastFa := Get(row, "Last Fa"),
      sex := Sex(row, before.sex),
      kind := FacultyType,
      rank := Get(row, "Rank"))
  }

  /** Lines 121-132. */
  function Scholar(named: Record, row: Dict): (Record, Option<PyError>) {
    var t := Get(row, "Google Scholar Retrieval Time");
    if !Truthy(t) then (named, None)
    else
      match PyInt(t)
      case Err(e) => (named, Some(e))
      case Ok(n) =>
        (named.(retrievalTimeGsc := Some(n), hIndexGsc := Get(row, "Google Scholar h-index"),
                i10IndexGsc := Get(row, "Google Scholar i10-index")), None)
  }

  /** A preferred name is replaced only by a cell that was neither missing
      nor a null marker in the raw row. */
  lemma PreferredNames(before: Record, raw: Dict)
    requires UniqueKeys(raw)
    ensures var row := Helpers.Nullified(raw, Helpers.NullTypes);
            var after := Detailed(before, row).0;
            (after.firstPref == before.firstPref || Lookup(raw, "First En") == Some(after.firstPref))
            && (after.middlePref == before.middlePref || Lookup(raw, "Middle En") == Some(after.middlePref))
            && (after.lastPref == before.lastPref || Lookup(raw, "Last En") == Some(after.lastPref))
            && (after.initialsPref == before.initialsPref || Lookup(raw, "Initials En") == Some(after.initialsPref))
    ensures var row := Helpers.Nullified(raw, Helpers.NullTypes);
            var after := Detailed(before, row).0;
            (NullCell(raw, "First En") ==> after.firstPref == before.firstPref)
            && (NullCell(raw, "Middle En") ==> after.middlePref == before.middlePref)
            && (NullCell(raw, "Last En") ==> after.lastPref == before.lastPref)
            && (NullCell(raw, "Initials En") ==> after.initialsPref == before.initialsPref)
  {
    var row := Helpers.Nullified(raw, Helpers.NullTypes);
    var named := Named(before, row);
    assert Detailed(before, row).0.firstPref == named.firstPref;
    assert Detailed(before, row).0.middlePref == named.middlePref;
    assert Detailed(before, row).0.lastPref == named.lastPref;
    assert Detailed(before, row).0.initialsPref == named.initialsPref;
    PreferredName(raw, "First En", before.firstPref);
    PreferredName(raw, "Middle En", before.middlePref);
    PreferredName(raw, "Last En", before.lastPref);
    PreferredName(raw, "Initials En", before.initialsPref);
  }

  /** One preferred name: `get_key(row, k) or kept` on the nullified row. */
  lemma PreferredName(raw: Dict, k: string, kept: JsonVal)
    requires UniqueKeys(raw)
    ensures var v := OrKeep(Get(Helpers.Nullified(raw, Helpers.NullTypes), k), kept);
            (v == kept || Lookup(raw, k) == Some(v)) && (NullCell(raw, k) ==> v == kept)
  {
    Helpers.NullifiedLookup(raw, Helpers.NullTypes, k);
  }

  /** The column is missing or holds one of the null markers. */
  predicate NullCell(raw: Dict, k: string) {
    Lookup(raw, k).None? || Lookup(raw, k).value in Helpers.NullTypes
  }

  /** The sex becomes 'm' for 'M' and 'f' for 'F' and is otherwise kept, so
      an author whose sex fits the column's enum ('m', 'f' or NULL) keeps
      fitting it. */
  lemma SexRule(before: Record, row: Dict)
    ensures var after := Detailed(before, row).0;
            (Get(row, "Sex") == Str("M") ==> after.sex == Str("m"))
            && (Get(row, "Sex") == Str("F") ==> after.sex == Str("f"))
            && (Get(row, "Sex") != Str("M") && Get(row, "Sex") != Str("F") ==> after.sex == before.sex)
    ensures before.sex in {Null, Str("m"), Str("f")} ==> Detailed(before, row).0.sex in {Null, Str("m"), Str("f")}
  {
    assert PyStr.Lower("M") == "m" by {
      assert PyStr.Lower("M")[0] == PyStr.LowerChar('M');
    }
    assert PyStr.Lower("F") == "f" by {
      assert PyStr.Lower("F")[0] == PyStr.LowerChar('F');
    }
  }

  /** Every row makes its author a faculty member; only a bad retrieval
      time raises, and then the Google Scholar metrics are kept. */
  lemma DetailsOutcome(before: Record, row: Dict)
    ensures Detailed(before, row).0.kind == Str("Faculty")
    ensures var t := Get(row, "Google Scholar Retrieval Time");
            Detailed(before, row).1.Some? <==> Truthy(t) && PyInt(t).Err?
    ensures var after := Detailed(before, row).0;
            Detailed(before, row).1.Some? || !Truthy(Get(row, "Google Scholar Retrieval Time")) ==>
              after.retrievalTimeGsc == before.retrievalTimeGsc && after.hIndexGsc == before.hIndexGsc
              && after.i10IndexGsc == before.i10IndexGsc
  {
  }

  /** Reading the same row twice changes nothing the first reading did not. */
  lemma DetailedTwice(before: Record, row: Dict)
    ensures Detailed(Detailed(before, row).0, row) == Detailed(before, row)
  {
    var (a, e) := Detailed(before, row);
    assert Sex(row, a.sex) == a.sex;
  }

  /** Lines 104-132. */
  method SetDetails(faculty: Author, row: Dict) returns (error: Option<PyError>)
    modifies faculty`idGsc, faculty`idInstitution, faculty`firstPref, faculty`middlePref, faculty`lastPref
    modifies faculty`initialsPref, faculty`firstFa, faculty`lastFa, faculty`sex, faculty`kind, faculty`rank
    modifies faculty`retrievalTimeGsc, faculty`hIndexGsc, faculty`i10IndexGsc
    ensures RecordOf(faculty) == Detailed(old(RecordOf(faculty)), row).0
    ensures error == Detailed(old(RecordOf(faculty)), row).1
  {
    SetRecord(faculty, Named(RecordOf(faculty), row));
    error := SetScholar(faculty, row);
  }

  /** Writes a record into the author's fields. */
  method SetRecord(faculty: Author, r: Record)
    modifies faculty`idGsc, faculty`idInstitution, faculty`firstPref, faculty`middlePref, faculty`lastPref
    modifies faculty`initialsPref, faculty`firstFa, faculty`lastFa, faculty`sex, faculty`kind, faculty`rank
    modifies faculty`retrievalTimeGsc, faculty`hIndexGsc, faculty`i10IndexGsc
    ensures RecordOf(faculty) == r
  {
    faculty.idGsc, faculty.idInstitution := r.idGsc, r.idInstitution;
    faculty.firstPref, faculty.middlePref := r.firstPref, r.middlePref;
    faculty.lastPref, faculty.initialsPref := r.lastPref, r.initialsPref;
    faculty.firstFa, faculty.lastFa := r.firstFa, r.lastFa;
    faculty.sex, faculty.kind, faculty.rank := r.sex, r.kind, r.rank;
    faculty.retrievalTimeGsc, faculty.hIndexGsc, faculty.i10IndexGsc := r.retrievalTimeGsc, r.hIndexGsc, r.i10IndexGsc;
  }

  /** Lines 121-132. */
  method SetScholar(faculty: Author, row: Dict) returns (error: Option<PyError>)
    modifies faculty`idGsc, faculty`idInstitution, faculty`firstPref, faculty`middlePref, faculty`lastPref
    modifies faculty`initialsPref, faculty`firstFa, faculty`lastFa, faculty`sex, faculty`kind, faculty`rank
    modifies faculty`retrievalTimeGsc, faculty`hIndexGsc, faculty`i10IndexGsc
    ensures RecordOf(faculty) == Scholar(old(RecordOf(faculty)), row).0
    ensures error == Scholar(old(RecordOf(faculty)), row).1
  {
    var t := Get(row, "Google Scholar Retrieval Time");
    error := None;
    if Truthy(t) {
      var n := PyInt(t);
      if n.Err? {
        error := Some(n.error);
      } else {
        var named := RecordOf(faculty);
        SetRecord(faculty, named.(retrievalTimeGsc := Some(n.value), hIndexGsc := Get(row, "Google Scholar h-index"),
                                  i10IndexGsc := Get(row, "Google Scholar i10-index")));
      }
    }
  }

  // ================================================================ profiles

  const ScholarPrefix: string := "https://scholar.google.com/citations?user="

  /** One 'Email' profile per non-empty piece, with the piece stripped. */
  function Emails(ps: seq<string>): seq<AuthorProfile>
    decreases |ps|
  {
    if ps == [] then []
    else
      var p := ps[|ps| - 1];
      Emails(ps[..|ps| - 1]) + if p != "" then [AuthorProfile(Str(PyStr.Strip(p)), "Email")] else []
  }

  lemma EmailsSnoc(ps: seq<string>, p: string)
    ensures Emails(ps + [p]) == Emails(ps) + if p != "" then [AuthorProfile(Str(PyStr.Strip(p)), "Email")] else []
  {
    assert (ps + [p])[..|ps|] == ps;
  }

  /** The email profiles are the non-empty pieces, stripped, in order: a
      piece of blanks gives an empty address. */
  lemma {:induction false} EmailsOfPieces(ps: seq<string>)
    decreases |ps|
    ensures |Emails(ps)| == |NonEmpty(ps)|
    ensures forall k :: 0 <= k < |Emails(ps)| ==>
              Emails(ps)[k] == AuthorProfile(Str(PyStr.Strip(NonEmpty(ps)[k])), "Email")
  {
    if ps != [] {
      EmailsOfPieces(ps[..|ps| - 1]);
    }
  }

  /** `row['Email']` split on commas: an `AttributeError` for a truthy cell
      that is not a str. */
  function EmailProfiles(row: Dict): Result<seq<AuthorProfile>> {
    var v :- Importers.Field(row, "Email");
    if !Truthy(v) then Ok([])
    else if !v.Str? then Err(AttributeError)
    else Ok(Emails(PyStr.SplitOn(v.s, ",")))
  }

  /** The profile for a cell that is present. */
  function Optional(v: JsonVal, kind: string): seq<AuthorProfile> {
    if Truthy(v) then [AuthorProfile(v, kind)] else []
  }

  /** `row[k]` appended as a profile of kind `k` when it is truthy. */
  function OptionalProfile(row: Dict, k: string): Result<seq<AuthorProfile>> {
    var v :- Importers.Field(row, k);
    Ok(Optional(v, k))
  }

  /** The Google Scholar address: a `TypeError` for an id that is not a str,
      since it cannot be appended to the address prefix. */
  function ScholarProfile(row: Dict): Result<seq<AuthorProfile>> {
    var gs :- Importers.Field(row, "Google Scholar ID");
    if !Truthy(gs) then Ok([])
    else if !gs.Str? then Err(TypeError)
    else Ok([AuthorProfile(Str(ScholarPrefix + gs.s), "Google Scholar")])
  }

  /** The statement after `run`: skipped once an exception was raised,
      otherwise its profiles are appended or its exception is raised. */
  function Then(run: Importers.Run<AuthorProfile>, next: Result<seq<AuthorProfile>>): Importers.Run<AuthorProfile> {
    if run.error.Some? then run
    else
      match next
      case Err(e) => Importers.Run(run.items, Some(e))
      case Ok(ps) => Importers.Run(run.items + ps, None)
  }

  /** Lines 135-154: the profiles appended, in order, and the exception that
      stops them. */
  function Profiles(row: Dict): Importers.Run<AuthorProfile> {
    var emails := Then(Importers.Run([], None), EmailProfiles(row));
    var phone := Then(emails, OptionalProfile(row, "Phone (Office)"));
    var site := Then(phone, OptionalProfile(row, "Personal Website"));
    Then(site, ScholarProfile(row))
  }

  /** A statement that raises stops the profiles: nothing after it is added. */
  lemma ThenStops(run: Importers.Run<AuthorProfile>, next: Result<seq<AuthorProfile>>)
    ensures next.Err? ==> Then(run, next).items == run.items && Then(run, next).error.Some?
    ensures run.error.Some? ==> Then(run, next) == run
    ensures run.error.None? && next.Ok? ==> Then(run, next) == Importers.Run(run.items + next.value, None)
    ensures Then(run, next).error.None? ==> run.error.None? && next.Ok?
  {
  }

  /** A row that raises nothing appends the four statements' profiles. */
  lemma ProfilesOk(row: Dict)
    requires Profiles(row).error.None?
    ensures EmailProfiles(row).Ok? && OptionalProfile(row, "Phone (Office)").Ok?
    ensures OptionalProfile(row, "Personal Website").Ok? && ScholarProfile(row).Ok?
    ensures Profiles(row).items == EmailProfiles(row).value + OptionalProfile(row, "Phone (Office)").value
                                   + OptionalProfile(row, "Personal Website").value + ScholarProfile(row).value
  {
    var emails := Then(Importers.Run([], None), EmailProfiles(row));
    var phone := Then(emails, OptionalProfile(row, "Phone (Office)"));
    var site := Then(phone, OptionalProfile(row, "Personal Website"));
    ThenStops(site, ScholarProfile(row));
    ThenStops(phone, OptionalProfile(row, "Personal Website"));
    ThenStops(emails, OptionalProfile(row, "Phone (Office)"));
    ThenStops(Importers.Run([], None), EmailProfiles(row));
    assert [] + EmailProfiles(row).value == EmailProfiles(row).value;
  }

  /** How many of `ps` have the kind `kind`. */
  function CountKind(ps: seq<AuthorProfile>, kind: string): nat
    decreases |ps|
  {
    if ps == [] then 0 else CountKind(ps[..|ps| - 1], kind) + if ps[|ps| - 1].kind == kind then 1 else 0
  }

  lemma {:induction false} CountKindAppend(a: seq<AuthorProfile>, b: seq<AuthorProfile>, kind: string)
    decreases |b|
    ensures CountKind(a + b, kind) == CountKind(a, kind) + CountKind(b, kind)
  {
    if b == [] {
      assert a + b == a;
    } else {
      var p := b[..|b| - 1];
      assert (a + b)[..|a + b| - 1] == a + p;
      assert (a + b)[|a + b| - 1] == b[|b| - 1];
      CountKindAppend(a, p, kind);
    }
  }

  lemma {:induction false} CountEmails(ps: seq<string>, kind: string)
    decreases |ps|
    ensures CountKind(Emails(ps), kind) == if kind == "Email" then |NonEmpty(ps)| else 0
  {
    if ps != [] {
      var p := ps[..|ps| - 1];
      var last := ps[|ps| - 1];
      CountEmails(p, kind);
      CountKindAppend(Emails(p), if last != "" then [AuthorProfile(Str(PyStr.Strip(last)), "Email")] else [], kind);
    }
  }

  /** A row that raises nothing adds one email profile per non-empty piece
      of its email cell and one profile for each of the phone, website and
      Google Scholar cells that is present. */
  lemma ProfileCounts(row: Dict)
    requires Profiles(row).error.None?
    ensures var ps := Profiles(row).items;
            var email := Lookup(row, "Email").value;
            && CountKind(ps, "Email") == (if Truthy(email) then |NonEmpty(PyStr.SplitOn(email.s, ","))| else 0)
            && CountKind(ps, "Phone (Office)") == (if Truthy(Lookup(row, "Phone (Office)").value) then 1 else 0)
            && CountKind(ps, "Personal Website") == (if Truthy(Lookup(row, "Personal Website").value) then 1 else 0)
            && CountKind(ps, "Google Scholar") == (if Truthy(Lookup(row, "Google Scholar ID").value) then 1 else 0)
  {
    var email := Lookup(row, "Email").value;
    ProfileCount(row, "Email");
    ProfileCount(row, "Phone (Office)");
    ProfileCount(row, "Personal Website");
    ProfileCount(row, "Google Scholar");
    if Truthy(email) {
      var pieces := PyStr.SplitOn(email.s, ",");
      CountEmails(pieces, "Email");
      CountEmails(pieces, "Phone (Office)");
      CountEmails(pieces, "Personal Website");
      CountEmails(pieces, "Google Scholar");
    }
  }

  /** The count of one kind in the profiles of a row that raises nothing is
      the sum over its four statements. */
  lemma ProfileCount(row: Dict, kind: string)
    requires Profiles(row).error.None?
    ensures var email := Lookup(row, "Email").value;
            CountKind(Profiles(row).items, kind)
            == (if Truthy(email) then CountKind(Emails(PyStr.SplitOn(email.s, ",")), kind) else 0)
               + Count(Lookup(row, "Phone (Office)").value, "Phone (Office)", kind)
               + Count(Lookup(row, "Personal Website").value, "Personal Website", kind)
               + Count(Lookup(row, "Google Scholar ID").value, "Google Scholar", kind)
  {
    var emails := EmailProfiles(row).value;
    var phone := OptionalProfile(row, "Phone (Office)").value;
    var site := OptionalProfile(row, "Personal Website").value;
    var gs := ScholarProfile(row).value;
    ProfilesOk(row);
    CountKindAppend(emails + phone + site, gs, kind);
    CountKindAppend(emails + phone, site, kind);
    CountKindAppend(emails, phone, kind);
    if !Truthy(Lookup(row, "Email").value) {
      assert emails == [];
    }
    CountOptional(row, "Phone (Office)", kind);
    CountOptional(row, "Personal Website", kind);
    CountScholar(row, kind);
  }

  lemma CountOptional(row: Dict, k: string, kind: string)
    requires OptionalProfile(row, k).Ok?
    ensures CountKind(OptionalProfile(row, k).value, kind) == Count(Lookup(row, k).value, k, kind)
  {
    if Truthy(Lookup(row, k).value) {
      CountSingle(AuthorProfile(Lookup(row, k).value, k), kind);
    }
  }

  lemma CountScholar(row: Dict, kind: string)
    requires ScholarProfile(row).Ok?
    ensures CountKind(ScholarProfile(row).value, kind) == Count(Lookup(row, "Google Scholar ID").value, "Google Scholar", kind)
  {
    var gs := Lookup(row, "Google Scholar ID").value;
    if Truthy(gs) {
      CountSingle(AuthorProfile(Str(ScholarPrefix + gs.s), "Google Scholar"), kind);
    }
  }

  /** 1 for a present cell of the kind `kind`, otherwise 0. */
  function Count(v: JsonVal, k: string, kind: string): nat {
    if Truthy(v) && k == kind then 1 else 0
  }

  lemma CountSingle(p: AuthorProfile, kind: string)
    ensures CountKind([p], kind) == if p.kind == kind then 1 else 0
  {
    assert [p][..0] == [];
  }

  /** The Google Scholar profile points at the row's id. */
  lemma ScholarAddress(row: Dict)
    requires Profiles(row).error.None? && Truthy(Lookup(row, "Google Scholar ID").value)
    ensures var ps := Profiles(row).items;
            |ps| > 0 && ps[|ps| - 1].kind == "Google Scholar" && ps[|ps| - 1].address.Str?
            && ps[|ps| - 1].address.s == ScholarPrefix + Lookup(row, "Google Scholar ID").value.s
  {
  }

  lemma EmailsAppend(ps: seq<string>, p: string)
    ensures Emails(ps + [p]) == Emails(ps) + Emails([p])
  {
    EmailsSnoc(ps, p);
    EmailsSnoc([], p);
    assert [] + [p] == [p];
  }

  lemma EmailsStep(base: seq<AuthorProfile>, pieces: seq<string>, i: nat)
    requires i < |pieces|
    ensures base + Emails(pieces[..i]) + Emails([pieces[i]]) == base + Emails(pieces[..i + 1])
  {
    var ps, p := pieces[..i], pieces[i];
    assert pieces[..i + 1] == ps + [p];
    EmailsAppend(ps, p);
    assert base + Emails(ps) + Emails([p]) == base + (Emails(ps) + Emails([p]));
  }

  /** The body of the loop over the email pieces for the piece `email`. */
  method AddEmail(faculty: Author, email: string)
    modifies faculty`profiles
    ensures faculty.profiles == old(faculty.profiles) + Emails([email])
  {
    EmailsSnoc([], email);
    assert [] + [email] == [email];
    if email != "" {
      faculty.profiles := faculty.profiles + [AuthorProfile(Str(PyStr.Strip(email)), "Email")];
    }
  }

  /** The loop over the email pieces (lines 136-140). */
  method AddEmails(faculty: Author, pieces: seq<string>)
    modifies faculty`profiles
    ensures faculty.profiles == old(faculty.profiles) + Emails(pieces)
  {
    ghost var base := faculty.profiles;
    assert pieces[..0] == [];
    var i := 0;
    while i < |pieces|
      invariant 0 <= i <= |pieces|
      invariant faculty.profiles == base + Emails(pieces[..i])
    {
      AddEmail(faculty, pieces[i]);
      EmailsStep(base, pieces, i);
      i := i + 1;
    }
    assert pieces[..i] == pieces;
  }

  /** Lines 135-154. */
  method AddProfiles(faculty: Author, row: Dict) returns (error: Option<PyError>)
    modifies faculty`profiles
    ensures faculty.profiles == old(faculty.profiles) + Profiles(row).items && error == Profiles(row).error
  {
    ghost var base := faculty.profiles;
    ghost var run := Importers.Run([], None);
    assert base + run.items == base;
    error := AddEmailProfiles(faculty, row);
    ThenShift(base, run, EmailProfiles(row));
    run := Then(run, EmailProfiles(row));
    if error.None? {
      error := AddOptional(faculty, row, "Phone (Office)");
      ThenShift(base, run, OptionalProfile(row, "Phone (Office)"));
    }
    run := Then(run, OptionalProfile(row, "Phone (Office)"));
    if error.None? {
      error := AddOptional(faculty, row, "Personal Website");
      ThenShift(base, run, OptionalProfile(row, "Personal Website"));
    }
    run := Then(run, OptionalProfile(row, "Personal Website"));
    if error.None? {
      error := AddScholar(faculty, row);
      ThenShift(base, run, ScholarProfile(row));
    }
    run := Then(run, ScholarProfile(row));
    assert run == Profiles(row);
  }

  /** A statement run after `base` appends what it appends after `run`. */
  lemma ThenShift(base: seq<AuthorProfile>, run: Importers.Run<AuthorProfile>, next: Result<seq<AuthorProfile>>)
    requires run.error.None?
    ensures var a := Then(Importers.Run(base + run.items, None), next);
            var b := Then(run, next);
            a.items == base + b.items && a.error == b.error
  {
    if next.Ok? {
      assert base + run.items + next.value == base + (run.items + next.value);
    }
  }

  /** Lines 135-140. */
  method AddEmailProfiles(faculty: Author, row: Dict) returns (error: Option<PyError>)
    modifies faculty`profiles
    ensures Importers.Run(faculty.profiles, error) == Then(Importers.Run(old(faculty.profiles), None), EmailProfiles(row))
  {
    error := None;
    var email := Importers.Field(row, "Email");
    if email.Err? {
      error := Some(email.error);
    } else if Truthy(email.value) {
      if !email.value.Str? {
        error := Some(AttributeError);
      } else {
        AddEmails(faculty, PyStr.SplitOn(email.value.s, ","));
      }
    }
  }

  /** Lines 141-148: the phone and the website. */
  method AddOptional(faculty: Author, row: Dict, k: string) returns (error: Option<PyError>)
    modifies faculty`profiles
    ensures Importers.Run(faculty.profiles, error) == Then(Importers.Run(old(faculty.profiles), None), OptionalProfile(row, k))
  {
    error := None;
    var v := Importers.Field(row, k);
    if v.Err? {
      error := Some(v.error);
    } else if Truthy(v.value) {
      faculty.profiles := faculty.profiles + [AuthorProfile(v.value, k)];
    }
  }

  /** Lines 149-154. */
  method AddScholar(faculty: Author, row: Dict) returns (error: Option<PyError>)
    modifies faculty`profiles
    ensures Importers.Run(faculty.profiles, error) == Then(Importers.Run(old(faculty.profiles), None), ScholarProfile(row))
  {
    error := None;
    var gs := Importers.Field(row, "Google Scholar ID");
    if gs.Err? {
      error := Some(gs.error);
    } else if Truthy(gs.value) {
      if !gs.value.Str? {
        error := Some(TypeError);
      } else {
        faculty.profiles := faculty.profiles + [AuthorProfile(Str(ScholarPrefix + gs.value.s), "Google Scholar")];
      }
    }
  }

  // ================================================================ departments

  /** `faculty_depts[abbr]['name']` and `['type']` exist. */
  predicate Listed(deptMap: map<JsonVal, Dict>, abbr: string) {
    Str(abbr) in deptMap && Lookup(deptMap[Str(abbr)], "name").Some? && Lookup(deptMap[Str(abbr)], "type").Some?
  }

  /** A department made from the department map entry of its abbreviation. */
  predicate MadeFrom(d: Department, deptMap: map<JsonVal, Dict>) {
    d.abbreviation.Str? && Listed(deptMap, d.abbreviation.s)
    && d.name == Lookup(deptMap[d.abbreviation], "name").value
    && d.kind == Lookup(deptMap[d.abbreviation], "type").value
  }

  /** An abbreviation that names none of the departments `known` the
      institution had when the run started, and that the department map
      lacks: creating its department raises KeyError (line 167). */
  predicate Missing(known: seq<Department>, deptMap: map<JsonVal, Dict>, abbr: string) {
    FirstDepartment(known, false, Str(abbr)) == null && !Listed(deptMap, abbr)
  }

  /** The departments the run has created so far: each is the
      institution's, is made from the department map, and is the first
      department of `depts` with its abbreviation, so that no department
      there before it shares that abbreviation. */
  ghost predicate Created(created: seq<Department>, depts: seq<Department>, inst: Institution,
                          deptMap: map<JsonVal, Dict>)
    reads created
  {
    forall k :: 0 <= k < |created| ==>
      created[k].institution == inst && MadeFrom(created[k], deptMap)
      && FirstDepartment(depts, false, created[k].abbreviation) == created[k]
  }

  /** The lookup in a list with more departments after it finds what it
      found before, and otherwise searches the ones after. */
  lemma {:induction false} FirstDepartmentAppend(ds: seq<Department>, more: seq<Department>, byName: bool, v: JsonVal)
    decreases |ds|
    ensures FirstDepartment(ds + more, byName, v) ==
              if FirstDepartment(ds, byName, v) != null then FirstDepartment(ds, byName, v)
              else FirstDepartment(more, byName, v)
  {
    if ds == [] {
      assert [] + more == more;
    } else {
      assert (ds + more)[0] == ds[0] && (ds + more)[1..] == ds[1..] + more;
      if Attr(ds[0], byName) != v {
        FirstDepartmentAppend(ds[1..], more, byName, v);
      }
    }
  }

  /** A department appended with an abbreviation none of `ds` has is the
      first with that abbreviation. */
  lemma FirstDepartmentNew(ds: seq<Department>, d: Department, v: JsonVal)
    requires FirstDepartment(ds, false, v) == null && d.abbreviation == v
    ensures FirstDepartment(ds + [d], false, v) == d
  {
    FirstDepartmentAppend(ds, [d], false, v);
  }

  /** The departments that the lookups of line 160 find in `depts` for the
      abbreviations `ds`, in order. */
  function Linked(depts: seq<Department>, ds: seq<string>): (r: seq<Department>)
    decreases |ds|
    ensures |r| <= |ds|
  {
    if ds == [] then []
    else
      var d := FirstDepartment(depts, false, Str(ds[|ds| - 1]));
      Linked(depts, ds[..|ds| - 1]) + if d == null then [] else [d]
  }

  lemma LinkedSnoc(depts: seq<Department>, ds: seq<string>, x: string)
    ensures var d := FirstDepartment(depts, false, Str(x));
            Linked(depts, ds + [x]) == Linked(depts, ds) + if d == null then [] else [d]
  {
    assert (ds + [x])[..|ds|] == ds;
  }

  /** Every abbreviation of `ds` names a department of `depts`. */
  predicate AllNamed(depts: seq<Department>, ds: seq<string>) {
    forall k :: 0 <= k < |ds| ==> FirstDepartment(depts, false, Str(ds[k])) != null
  }

  lemma AllNamedPrefix(depts: seq<Department>, ds: seq<string>, n: nat)
    requires AllNamed(depts, ds) && n <= |ds|
    ensures AllNamed(depts, ds[..n])
  {
    forall k | 0 <= k < n ensures FirstDepartment(depts, false, Str(ds[..n][k])) != null {
      assert ds[..n][k] == ds[k];
    }
  }

  /** When every abbreviation names a department, the departments linked
      are the ones the lookups find, one per abbreviation, each with that
      abbreviation. */
  lemma {:induction false} LinkedAllNamed(depts: seq<Department>, ds: seq<string>)
    requires AllNamed(depts, ds)
    decreases |ds|
    ensures |Linked(depts, ds)| == |ds|
    ensures forall k :: 0 <= k < |ds| ==>
              Linked(depts, ds)[k] == FirstDepartment(depts, false, Str(ds[k]))
              && Linked(depts, ds)[k] in depts && Linked(depts, ds)[k].abbreviation == Str(ds[k])
  {
    if ds != [] {
      var p := ds[..|ds| - 1];
      AllNamedPrefix(depts, ds, |p|);
      LinkedAllNamed(depts, p);
      var d := FirstDepartment(depts, false, Str(ds[|ds| - 1]));
      assert Linked(depts, ds) == Linked(depts, p) + [d];
      forall k | 0 <= k < |ds| ensures Linked(depts, ds)[k] == FirstDepartment(depts, false, Str(ds[k])) {
        if k < |p| {
          assert ds[k] == p[k];
        }
      }
    }
  }

  /** Departments appended to the institution later do not change what the
      lookups found. */
  lemma {:induction false} LinkedAppend(depts: seq<Department>, more: seq<Department>, ds: seq<string>)
    requires AllNamed(depts, ds)
    decreases |ds|
    ensures Linked(depts + more, ds) == Linked(depts, ds) && AllNamed(depts + more, ds)
  {
    forall k | 0 <= k < |ds|
      ensures FirstDepartment(depts + more, false, Str(ds[k])) == FirstDepartment(depts, false, Str(ds[k]))
    {
      FirstDepartmentAppend(depts, more, false, Str(ds[k]));
    }
    if ds != [] {
      var p := ds[..|ds| - 1];
      AllNamedPrefix(depts, ds, |p|);
      LinkedAppend(depts, more, p);
      FirstDepartmentAppend(depts, more, false, Str(ds[|ds| - 1]));
    }
  }

  /** While the run has only appended the departments it created, a lookup
      that finds nothing for an abbreviation the map lacks is exactly a
      missing abbreviation. */
  lemma MissingNow(known: seq<Department>, created: seq<Department>, inst: Institution,
                   deptMap: map<JsonVal, Dict>, abbr: string)
    requires Created(created, known + created, inst, deptMap)
    ensures (FirstDepartment(known + created, false, Str(abbr)) == null && !Listed(deptMap, abbr))
            <==> Missing(known, deptMap, abbr)
  {
    FirstDepartmentAppend(known, created, false, Str(abbr));
    var c := FirstDepartment(created, false, Str(abbr));
    if c != null && FirstDepartment(known, false, Str(abbr)) == null {
      var k :| 0 <= k < |created| && created[k] == c;
      assert MadeFrom(created[k], deptMap);
    }
  }

  /** Appending a department created from the map keeps the created ones
      the first with their abbreviations. */
  lemma CreatedSnoc(created: seq<Department>, depts: seq<Department>, inst: Institution,
                    deptMap: map<JsonVal, Dict>, d: Department)
    requires Created(created, depts, inst, deptMap)
    requires d.institution == inst && MadeFrom(d, deptMap) && FirstDepartment(depts, false, d.abbreviation) == null
    ensures Created(created + [d], depts + [d], inst, deptMap)
  {
    var c := created + [d];
    forall k | 0 <= k < |c|
      ensures c[k].institution == inst && MadeFrom(c[k], deptMap)
              && FirstDepartment(depts + [d], false, c[k].abbreviation) == c[k]
    {
      FirstDepartmentAppend(depts, [d], false, c[k].abbreviation);
      if k == |created| {
        FirstDepartmentNew(depts, d, d.abbreviation);
      }
    }
  }

  /** Lines 163-171: the department of the map entry for `dept`, added to
      the institution. */
  method CreateDepartment(inst: Institution, dept: string, deptMap: map<JsonVal, Dict>) returns (d: Department)
    requires Listed(deptMap, dept)
    modifies inst`departments
    ensures fresh(d) && inst.departments == old(inst.departments) + [d]
    ensures d.institution == inst && MadeFrom(d, deptMap) && d.abbreviation == Str(dept)
  {
    var entry := deptMap[Str(dept)];
    d := new Department(Lookup(entry, "name").value, Null, Str(dept), Null, Lookup(entry, "type").value);
    inst.AddDepartment(d);
  }

  /** No abbreviation of `ds` is missing. */
  predicate Good(known: seq<Department>, deptMap: map<JsonVal, Dict>, ds: seq<string>) {
    forall x :: x in ds ==> !Missing(known, deptMap, x)
  }

  /** The state of the loop of lines 157-172 after the abbreviations `ds`:
      the institution holds its departments and the ones created, the
      abbreviations all named a department, and the faculty member holds
      its old departments `base` and the ones linked. */
  ghost predicate Progress(inst: Institution, faculty: Author, known: seq<Department>, created: seq<Department>,
                           base: seq<Department>, ds: seq<string>, deptMap: map<JsonVal, Dict>)
    reads inst, faculty, created
  {
    && inst.departments == known + created && Created(created, inst.departments, inst, deptMap)
    && AllNamed(inst.departments, ds) && Good(known, deptMap, ds)
    && faculty.departments == base + Linked(inst.departments, ds)
  }

  /** `created'` extends `created`. */
  predicate Extends(created: seq<Department>, created': seq<Department>) {
    |created| <= |created'| && created'[..|created|] == created
  }

  /** The departments created since `created`. */
  lemma ExtendsSplit(known: seq<Department>, created: seq<Department>, created': seq<Department>)
    returns (more: seq<Department>)
    requires Extends(created, created')
    ensures known + created' == (known + created) + more
  {
    more := created'[|created|..];
    assert created' == created + more;
  }

  /** One pass of the loop of lines 157-172, over the piece `pieces[i]`. */
  method LinkPiece(inst: Institution, faculty: Author, pieces: seq<string>, i: nat, deptMap: map<JsonVal, Dict>,
                   ghost known: seq<Department>, ghost created: seq<Department>, ghost base: seq<Department>)
    returns (error: Option<PyError>, ghost created': seq<Department>)
    requires i < |pieces| && Progress(inst, faculty, known, created, base, NonEmpty(pieces[..i]), deptMap)
    modifies inst`departments, faculty`departments
    ensures error.Some? ==> error == Some(KeyError) && !Good(known, deptMap, NonEmpty(pieces))
    ensures error.None? ==>
              && Progress(inst, faculty, known, created', base, NonEmpty(pieces[..i + 1]), deptMap)
              && Extends(created, created') && forall d | d in created' && d !in created :: fresh(d)
  {
    var dept := pieces[i];
    ghost var ps := NonEmpty(pieces[..i]);
    assert pieces[..i + 1] == pieces[..i] + [dept];
    NonEmptySnoc(pieces[..i], dept);
    created' := created;
    error := None;
    if dept == "" {
      assert NonEmpty(pieces[..i + 1]) == ps;
    } else {
      var department := FirstDepartment(inst.departments, false, Str(dept));
      if department != null {
        ghost var fb := faculty.departments;
        faculty.departments := faculty.departments + [department];
        LinkFoundStep(inst, faculty, known, created, base, ps, dept, deptMap, fb);
      } else if !Listed(deptMap, dept) {
        MissingNow(known, created, inst, deptMap, dept);
        NonEmptyMembers(pieces, dept);
        error := Some(KeyError);
      } else {
        ghost var before := inst.departments;
        ghost var fb := faculty.departments;
        assert Created(created, before, inst, deptMap);
        var d := CreateDepartment(inst, dept, deptMap);
        assert Created(created, before, inst, deptMap);
        faculty.departments := faculty.departments + [d];
        assert Created(created, before, inst, deptMap);
        created' := created + [d];
        LinkCreated(inst, faculty, known, created, base, ps, dept, deptMap, before, fb, d);
      }
    }
  }

  /** After the lookup found a department: nothing is created and the one
      found is linked. */
  lemma LinkFoundStep(inst: Institution, faculty: Author, known: seq<Department>, created: seq<Department>,
                      base: seq<Department>, ps: seq<string>, dept: string, deptMap: map<JsonVal, Dict>,
                      fb: seq<Department>)
    requires inst.departments == known + created && Created(created, inst.departments, inst, deptMap)
    requires AllNamed(inst.departments, ps) && Good(known, deptMap, ps)
    requires fb == base + Linked(inst.departments, ps)
    requires FirstDepartment(inst.departments, false, Str(dept)) != null
    requires faculty.departments == fb + [FirstDepartment(inst.departments, false, Str(dept))]
    ensures Progress(inst, faculty, known, created, base, ps + [dept], deptMap)
  {
    MissingNow(known, created, inst, deptMap, dept);
    LinkSnoc(known, inst.departments, base, ps, dept, deptMap);
  }

  /** Linking `dept` once its lookup finds a department. */
  lemma LinkSnoc(known: seq<Department>, depts: seq<Department>, base: seq<Department>, ps: seq<string>,
                 dept: string, deptMap: map<JsonVal, Dict>)
    requires AllNamed(depts, ps) && Good(known, deptMap, ps)
    requires FirstDepartment(depts, false, Str(dept)) != null && !Missing(known, deptMap, dept)
    ensures AllNamed(depts, ps + [dept]) && Good(known, deptMap, ps + [dept])
    ensures base + Linked(depts, ps) + [FirstDepartment(depts, false, Str(dept))] == base + Linked(depts, ps + [dept])
  {
    var found := FirstDepartment(depts, false, Str(dept));
    LinkedSnoc(depts, ps, dept);
    assert base + Linked(depts, ps) + [found] == base + (Linked(depts, ps) + [found]);
    forall k | 0 <= k < |ps + [dept]| ensures FirstDepartment(depts, false, Str((ps + [dept])[k])) != null {
      if k < |ps| { assert (ps + [dept])[k] == ps[k]; }
    }
  }

  /** After the lookup created a department: it is appended to the
      institution and to the created ones, and linked. */
  lemma LinkCreated(inst: Institution, faculty: Author, known: seq<Department>, created: seq<Department>,
                    base: seq<Department>, ps: seq<string>, dept: string, deptMap: map<JsonVal, Dict>,
                    before: seq<Department>, fb: seq<Department>, d: Department)
    requires before == known + created && Created(created, before, inst, deptMap)
    requires AllNamed(before, ps) && Good(known, deptMap, ps)
    requires fb == base + Linked(before, ps)
    requires FirstDepartment(before, false, Str(dept)) == null && Listed(deptMap, dept)
    requires d.institution == inst && MadeFrom(d, deptMap) && d.abbreviation == Str(dept)
    requires inst.departments == before + [d] && faculty.departments == fb + [d]
    ensures Progress(inst, faculty, known, created + [d], base, ps + [dept], deptMap)
  {
    MissingNow(known, created, inst, deptMap, dept);
    CreatedSnoc(created, before, inst, deptMap, d);
    LinkedAppend(before, [d], ps);
    FirstDepartmentNew(before, d, Str(dept));
    LinkSnoc(known, before + [d], base, ps, dept, deptMap);
    assert known + (created + [d]) == before + [d];
  }

  /** The loop of lines 157-172 over the pieces of the departments cell. */
  method LinkDepartments(inst: Institution, faculty: Author, pieces: seq<string>, deptMap: map<JsonVal, Dict>,
                         ghost known: seq<Department>, ghost created: seq<Department>)
    returns (error: Option<PyError>, ghost created': seq<Department>)
    requires inst.departments == known + created && Created(created, inst.departments, inst, deptMap)
    modifies inst`departments, faculty`departments
    ensures error.None? <==> Good(known, deptMap, NonEmpty(pieces))
    ensures error.Some? ==> error == Some(KeyError)
    ensures error.None? ==>
              && Progress(inst, faculty, known, created', old(faculty.departments), NonEmpty(pieces), deptMap)
              && Extends(created, created') && forall d | d in created' && d !in created :: fresh(d)
  {
    ghost var base := faculty.departments;
    error, created' := None, created;
    assert pieces[..0] == [];
    var i := 0;
    while i < |pieces| && error.None?
      invariant 0 <= i <= |pieces|
      invariant error.Some? ==> error == Some(KeyError) && !Good(known, deptMap, NonEmpty(pieces))
      invariant error.None? ==>
                  && Progress(inst, faculty, known, created', base, NonEmpty(pieces[..i]), deptMap)
                  && Extends(created, created') && forall d | d in created' && d !in created :: fresh(d)
    {
      ghost var c := created';
      error, created' := LinkPiece(inst, faculty, pieces, i, deptMap, known, created', base);
      i := i + 1;
    }
    if error.None? {
      assert pieces[..i] == pieces;
    }
  }

  // ================================================================ rows

  /** The abbreviations of the departments cell that the loop of lines
      157-172 looks up: the non-empty pieces of its split on commas; a cell
      that is not a str raises AttributeError. */
  function Abbreviations(row: Dict): Result<seq<string>> {
    var v :- Importers.Field(row, "Departments");
    if !v.Str? then Err(AttributeError) else Ok(NonEmpty(PyStr.SplitOn(v.s, ",")))
  }

  /** The exception `int()` raises on a retrieval time that is not an int
      literal (line 127). */
  function ScholarError(row: Dict): Option<PyError> {
    var t := Get(row, "Google Scholar Retrieval Time");
    if Truthy(t) && PyInt(t).Err? then Some(PyInt(t).error) else None
  }

  /** The exception that lines 104-172 raise for an accepted row, once it
      has been nullified, or None: the details, then the profiles, then the
      departments cell and its abbreviations. */
  function RowError(row: Dict, deptMap: map<JsonVal, Dict>, known: seq<Department>): Option<PyError> {
    if ScholarError(row).Some? then ScholarError(row)
    else if Profiles(row).error.Some? then Profiles(row).error
    else AbbreviationsError(row, deptMap, known)
  }

  /** The exception lines 157-172 raise: the departments cell is missing or
      not a str, or an abbreviation is missing. */
  function AbbreviationsError(row: Dict, deptMap: map<JsonVal, Dict>, known: seq<Department>): Option<PyError> {
    match Abbreviations(row)
    case Err(e) => Some(e)
    case Ok(ds) => if Good(known, deptMap, ds) then None else Some(KeyError)
  }

  /** What one row gives the loop of lines 87-182, for an institution that
      had the departments `known` when the run started: the row's faculty
      member, None for a skipped row, or the exception the row raises. */
  function Outcome(store: Store, deptMap: map<JsonVal, Dict>, known: seq<Department>, raw: Dict): Result<Option<Author>> {
    var f :- Faculty(store, raw);
    if f.None? then Ok(None)
    else
      match RowError(Helpers.Nullified(raw, Helpers.NullTypes), deptMap, known)
      case Some(e) => Err(e)
      case None => Ok(f)
  }

  function Outcomes(store: Store, deptMap: map<JsonVal, Dict>, known: seq<Department>, rows: seq<Dict>)
    : (r: seq<Result<Option<Author>>>)
    ensures |r| == |rows| && forall i :: 0 <= i < |rows| ==> r[i] == Outcome(store, deptMap, known, rows[i])
  {
    seq(|rows|, i requires 0 <= i < |rows| => Outcome(store, deptMap, known, rows[i]))
  }

  /** What a faculty row changes of an author. */
  datatype Snapshot = Snapshot(record: Record, profiles: seq<AuthorProfile>, departments: seq<Department>)

  function SnapshotOf(a: Author): Snapshot
    reads a
  {
    Snapshot(RecordOf(a), a.profiles, a.departments)
  }

  /** `ds.remove(x)`: the first occurrence of `x` is taken out. */
  function RemoveFirst(ds: seq<Department>, x: Department): (r: seq<Department>)
    decreases |ds|
    ensures x !in ds ==> r == ds
    ensures x in ds ==> |r| == |ds| - 1 && multiset(r) == multiset(ds) - multiset{x}
  {
    if ds == [] then []
    else if ds[0] == x then
      assert ds == [ds[0]] + ds[1..];
      ds[1..]
    else
      assert ds == [ds[0]] + ds[1..];
      [ds[0]] + RemoveFirst(ds[1..], x)
  }

  /** An author after a row that names it and raises nothing: the row's
      details, the row's profiles appended, the departments that the row's
      abbreviations name in `depts` appended, and then the first occurrence
      of the institution's 'Undefined' department removed. */
  function Updated(s: Snapshot, row: Dict, depts: seq<Department>, noDept: Department?): Snapshot {
    var abbrs := if Abbreviations(row).Ok? then Abbreviations(row).value else [];
    Snapshot(Detailed(s.record, row).0, s.profiles + Profiles(row).items, Relinked(s.departments, depts, abbrs, noDept))
  }

  /** The departments `ds` with the ones the abbreviations name in `depts`
      appended and the first occurrence of `noDept` removed. */
  function Relinked(ds: seq<Department>, depts: seq<Department>, abbrs: seq<string>, noDept: Department?): seq<Department> {
    var linked := ds + Linked(depts, abbrs);
    if noDept == null then linked else RemoveFirst(linked, noDept)
  }

  /** An author after the rows: each row that names it updates it in turn. */
  function Final(s: Snapshot, store: Store, rows: seq<Dict>, a: Author, depts: seq<Department>, noDept: Department?): Snapshot
    decreases |rows|
  {
    if rows == [] then s
    else
      var before := Final(s, store, rows[..|rows| - 1], a, depts, noDept);
      var raw := rows[|rows| - 1];
      if Faculty(store, raw) == Ok(Some(a)) then Updated(before, Helpers.Nullified(raw, Helpers.NullTypes), depts, noDept)
      else before
  }

  lemma FinalSnoc(s: Snapshot, store: Store, rows: seq<Dict>, raw: Dict, a: Author, depts: seq<Department>, noDept: Department?)
    ensures var before := Final(s, store, rows, a, depts, noDept);
            Final(s, store, rows + [raw], a, depts, noDept)
            == if Faculty(store, raw) == Ok(Some(a)) then Updated(before, Helpers.Nullified(raw, Helpers.NullTypes), depts, noDept)
               else before
  {
    assert (rows + [raw])[..|rows|] == rows;
  }

  /** The abbreviations of an accepted row all name a department of `depts`. */
  predicate RowFound(store: Store, raw: Dict, depts: seq<Department>) {
    var row := Helpers.Nullified(raw, Helpers.NullTypes);
    (Faculty(store, raw).Ok? && Faculty(store, raw).value.Some? && Abbreviations(row).Ok?)
    ==> AllNamed(depts, Abbreviations(row).value)
  }

  ghost predicate AllFound(store: Store, rows: seq<Dict>, depts: seq<Department>) {
    forall j :: 0 <= j < |rows| ==> RowFound(store, rows[j], depts)
  }

  lemma RowFoundAppend(store: Store, raw: Dict, depts: seq<Department>, more: seq<Department>)
    requires RowFound(store, raw, depts)
    ensures RowFound(store, raw, depts + more)
  {
    var row := Helpers.Nullified(raw, Helpers.NullTypes);
    if Faculty(store, raw).Ok? && Faculty(store, raw).value.Some? && Abbreviations(row).Ok? {
      LinkedAppend(depts, more, Abbreviations(row).value);
    }
  }

  lemma AllFoundAppend(store: Store, rows: seq<Dict>, raw: Dict, depts: seq<Department>, more: seq<Department>)
    requires AllFound(store, rows, depts) && RowFound(store, raw, depts + more)
    ensures AllFound(store, rows + [raw], depts + more)
  {
    forall j | 0 <= j < |rows| + 1 ensures RowFound(store, (rows + [raw])[j], depts + more) {
      if j < |rows| {
        RowFoundAppend(store, rows[j], depts, more);
      }
    }
  }

  /** Departments appended to the institution after the rows were read do
      not change what the rows did to an author. */
  lemma {:induction false} FinalAppend(s: Snapshot, store: Store, rows: seq<Dict>, a: Author, depts: seq<Department>,
                                       more: seq<Department>, noDept: Department?)
    requires AllFound(store, rows, depts)
    decreases |rows|
    ensures Final(s, store, rows, a, depts + more, noDept) == Final(s, store, rows, a, depts, noDept)
  {
    if rows != [] {
      var p := rows[..|rows| - 1];
      var raw := rows[|rows| - 1];
      assert AllFound(store, p, depts) by {
        forall j | 0 <= j < |p| ensures RowFound(store, p[j], depts) {
          assert p[j] == rows[j];
        }
      }
      FinalAppend(s, store, p, a, depts, more, noDept);
      assert RowFound(store, raw, depts);
      var row := Helpers.Nullified(raw, Helpers.NullTypes);
      if Faculty(store, raw) == Ok(Some(a)) && Abbreviations(row).Ok? {
        LinkedAppend(depts, more, Abbreviations(row).value);
      }
    }
  }

  /** Every stored author is its state `snap0` at the start of the run,
      updated by the rows `done`. */
  ghost predicate Tracks(store: Store, done: seq<Dict>, snap0: map<Author, Snapshot>, depts: seq<Department>,
                         noDept: Department?)
    reads store.authors.Values
  {
    forall a | a in store.authors.Values :: a in snap0 && SnapshotOf(a) == Final(snap0[a], store, done, a, depts, noDept)
  }

  /** Lines 104-154: the details and the profiles of the row. */
  method AddDetails(faculty: Author, row: Dict) returns (error: Option<PyError>)
    modifies faculty`idGsc, faculty`idInstitution, faculty`firstPref, faculty`middlePref, faculty`lastPref
    modifies faculty`initialsPref, faculty`firstFa, faculty`lastFa, faculty`sex, faculty`kind, faculty`rank
    modifies faculty`retrievalTimeGsc, faculty`hIndexGsc, faculty`i10IndexGsc, faculty`profiles
    ensures error == if ScholarError(row).Some? then ScholarError(row) else Profiles(row).error
    ensures RecordOf(faculty) == Detailed(old(RecordOf(faculty)), row).0
    ensures error.None? ==> faculty.profiles == old(faculty.profiles) + Profiles(row).items
  {
    error := SetDetails(faculty, row);
    assert error == ScholarError(row);
    if error.None? {
      error := AddProfiles(faculty, row);
    }
  }

  /** Lines 156-179: the departments the row names linked, then the
      'Undefined' department `noDept` unlinked. */
  method LinkCell(inst: Institution, faculty: Author, row: Dict, deptMap: map<JsonVal, Dict>, noDept: Department?,
                  ghost known: seq<Department>, ghost created: seq<Department>)
    returns (error: Option<PyError>, ghost created': seq<Department>)
    requires inst.departments == known + created && Created(created, inst.departments, inst, deptMap)
    modifies inst`departments, faculty`departments
    ensures error == AbbreviationsError(row, deptMap, known)
    ensures error.None? ==>
              && inst.departments == known + created' && Created(created', inst.departments, inst, deptMap)
              && Extends(created, created') && (forall d | d in created' && d !in created :: fresh(d))
              && Abbreviations(row).Ok? && AllNamed(inst.departments, Abbreviations(row).value)
              && faculty.departments == Relinked(old(faculty.departments), inst.departments, Abbreviations(row).value, noDept)
  {
    created' := created;
    var cell := Importers.Field(row, "Departments");
    if cell.Err? {
      error := Some(cell.error);
    } else if !cell.value.Str? {
      error := Some(AttributeError);
    } else {
      error, created' := LinkDepartments(inst, faculty, PyStr.SplitOn(cell.value.s, ","), deptMap, known, created);
      ghost var abbrs := NonEmpty(PyStr.SplitOn(cell.value.s, ","));
      assert Abbreviations(row) == Ok(abbrs);
      if error.None? {
        ghost var linked := old(faculty.departments) + Linked(inst.departments, abbrs);
        assert faculty.departments == linked;
        if noDept != null && noDept in faculty.departments {
          faculty.departments := RemoveFirst(faculty.departments, noDept);
        }
        assert faculty.departments == Relinked(old(faculty.departments), inst.departments, abbrs, noDept);
      }
    }
  }

  /** Lines 104-179 for the faculty member of an accepted row, on the
      nullified row: details, profiles, departments, and the 'Undefined'
      department `noDept` unlinked. */
  method UpdateFaculty(inst: Institution, faculty: Author, row: Dict, deptMap: map<JsonVal, Dict>, noDept: Department?,
                       ghost known: seq<Department>, ghost created: seq<Department>)
    returns (error: Option<PyError>, ghost created': seq<Department>)
    requires inst.departments == known + created && Created(created, inst.departments, inst, deptMap)
    modifies inst`departments, faculty
    ensures error == RowError(row, deptMap, known)
    ensures error.None? ==>
              && inst.departments == known + created' && Created(created', inst.departments, inst, deptMap)
              && Extends(created, created') && (forall d | d in created' && d !in created :: fresh(d))
              && Abbreviations(row).Ok? && AllNamed(inst.departments, Abbreviations(row).value)
              && SnapshotOf(faculty) == Updated(old(SnapshotOf(faculty)), row, inst.departments, noDept)
  {
    ghost var s0 := SnapshotOf(faculty);
    created' := created;
    error := AddDetails(faculty, row);
    RowErrorSplit(row, deptMap, known);
    if error.None? {
      ghost var record, profiles := RecordOf(faculty), faculty.profiles;
      assert record == Detailed(s0.record, row).0 && profiles == s0.profiles + Profiles(row).items;
      assert faculty.departments == s0.departments;
      error, created' := LinkCell(inst, faculty, row, deptMap, noDept, known, created);
      if error.None? {
        assert RecordOf(faculty) == record && faculty.profiles == profiles;
        UpdatedFrom(s0, row, inst.departments, noDept, Snapshot(record, profiles, faculty.departments));
      }
    }
  }

  /** The exception of a row is the one of its details and profiles, or
      else the one of its departments. */
  lemma RowErrorSplit(row: Dict, deptMap: map<JsonVal, Dict>, known: seq<Department>)
    ensures var e := if ScholarError(row).Some? then ScholarError(row) else Profiles(row).error;
            RowError(row, deptMap, known) == if e.Some? then e else AbbreviationsError(row, deptMap, known)
  {
  }

  lemma UpdatedFrom(s0: Snapshot, row: Dict, depts: seq<Department>, noDept: Department?, s1: Snapshot)
    requires Abbreviations(row).Ok?
    requires s1.record == Detailed(s0.record, row).0 && s1.profiles == s0.profiles + Profiles(row).items
    requires s1.departments == Relinked(s0.departments, depts, Abbreviations(row).value, noDept)
    ensures s1 == Updated(s0, row, depts, noDept)
  {
  }

  /** An author that a visited row names becomes the row's update of its
      tracked state; any other author keeps its state. */
  lemma TrackVisit(s0: Snapshot, before: Snapshot, after: Snapshot, store: Store, done: seq<Dict>, raw: Dict,
                   a: Author, faculty: Author, depts: seq<Department>, more: seq<Department>, noDept: Department?)
    requires AllFound(store, done, depts) && before == Final(s0, store, done, a, depts, noDept)
    requires Faculty(store, raw) == Ok(Some(faculty))
    requires a == faculty ==> after == Updated(before, Helpers.Nullified(raw, Helpers.NullTypes), depts + more, noDept)
    requires a != faculty ==> after == before
    ensures after == Final(s0, store, done + [raw], a, depts + more, noDept)
  {
    FinalAppend(s0, store, done, a, depts, more, noDept);
    FinalSnoc(s0, store, done, raw, a, depts + more, noDept);
  }

  /** A skipped row changes no author. */
  lemma TrackSkip(s0: Snapshot, store: Store, done: seq<Dict>, raw: Dict, a: Author, depts: seq<Department>,
                  noDept: Department?)
    requires Faculty(store, raw) == Ok(None)
    ensures Final(s0, store, done + [raw], a, depts, noDept) == Final(s0, store, done, a, depts, noDept)
  {
    FinalSnoc(s0, store, done, raw, a, depts, noDept);
  }

  /** One pass of the loop of lines 87-182. */
  method Visit(store: Store, inst: Institution, raw: Dict, deptMap: map<JsonVal, Dict>, noDept: Department?,
               ghost known: seq<Department>, ghost created: seq<Department>, ghost done: seq<Dict>,
               ghost snap0: map<Author, Snapshot>)
    returns (o: Result<Option<Author>>, ghost created': seq<Department>)
    requires UniqueKeys(raw)
    requires inst.departments == known + created && Created(created, inst.departments, inst, deptMap)
    requires AllFound(store, done, inst.departments) && Tracks(store, done, snap0, inst.departments, noDept)
    modifies store.authors.Values, inst`departments
    ensures o == Outcome(store, deptMap, known, raw)
    ensures o.Ok? ==>
              && inst.departments == known + created' && Created(created', inst.departments, inst, deptMap)
              && Extends(created, created') && (forall d | d in created' && d !in created :: fresh(d))
              && AllFound(store, done + [raw], inst.departments) && Tracks(store, done + [raw], snap0, inst.departments, noDept)
  {
    created' := created;
    var row := Helpers.Nullify(raw, Helpers.NullTypes);
    var id := FacultyId(row);
    if id.Err? {
      o := Err(id.error);
    } else if id.value.None? || id.value.value !in store.authors {
      o := Ok(None);
      TracksSkip(store, done, raw, snap0, inst.departments, noDept);
    } else {
      var faculty := store.authors[id.value.value];
      o, created' := VisitFaculty(store, inst, faculty, raw, row, deptMap, noDept, known, created, done, snap0);
    }
  }

  /** A skipped row keeps every author's tracked state. */
  lemma TracksSkip(store: Store, done: seq<Dict>, raw: Dict, snap0: map<Author, Snapshot>, depts: seq<Department>,
                   noDept: Department?)
    requires Faculty(store, raw) == Ok(None)
    requires AllFound(store, done, depts) && Tracks(store, done, snap0, depts, noDept)
    ensures AllFound(store, done + [raw], depts) && Tracks(store, done + [raw], snap0, depts, noDept)
  {
    forall a | a in store.authors.Values
      ensures Final(snap0[a], store, done + [raw], a, depts, noDept) == Final(snap0[a], store, done, a, depts, noDept)
    {
      TrackSkip(snap0[a], store, done, raw, a, depts, noDept);
    }
    AllFoundAppend(store, done, raw, depts, []);
    assert depts + [] == depts;
  }

  /** Lines 104-181 for a row whose faculty member is stored. */
  method VisitFaculty(store: Store, inst: Institution, faculty: Author, raw: Dict, row: Dict, deptMap: map<JsonVal, Dict>,
                      noDept: Department?, ghost known: seq<Department>, ghost created: seq<Department>,
                      ghost done: seq<Dict>, ghost snap0: map<Author, Snapshot>)
    returns (o: Result<Option<Author>>, ghost created': seq<Department>)
    requires row == Helpers.Nullified(raw, Helpers.NullTypes) && Faculty(store, raw) == Ok(Some(faculty))
    requires inst.departments == known + created && Created(created, inst.departments, inst, deptMap)
    requires AllFound(store, done, inst.departments) && Tracks(store, done, snap0, inst.departments, noDept)
    modifies store.authors.Values, inst`departments
    ensures o == (if RowError(row, deptMap, known).Some? then Err(RowError(row, deptMap, known).value) else Ok(Some(faculty)))
    ensures o.Ok? ==>
              && inst.departments == known + created' && Created(created', inst.departments, inst, deptMap)
              && Extends(created, created') && (forall d | d in created' && d !in created :: fresh(d))
              && AllFound(store, done + [raw], inst.departments) && Tracks(store, done + [raw], snap0, inst.departments, noDept)
  {
    ghost var depts := inst.departments;
    assert faculty in store.authors.Values;
    var e;
    e, created' := UpdateFaculty(inst, faculty, row, deptMap, noDept, known, created);
    if e.Some? {
      o := Err(e.value);
    } else {
      o := Ok(Some(faculty));
      ghost var more := ExtendsSplit(known, created, created');
      assert RowFound(store, raw, inst.departments);
      AllFoundAppend(store, done, raw, depts, more);
      forall a | a in store.authors.Values
        ensures SnapshotOf(a) == Final(snap0[a], store, done + [raw], a, inst.departments, noDept)
      {
        TrackVisit(snap0[a], old(SnapshotOf(a)), SnapshotOf(a), store, done, raw, a, faculty, depts, more, noDept);
      }
    }
  }

  // ================================================================ the run

  /** The 'Undefined' department of the institution: the first one named
      'Undefined' (lines 81-84), or null. */
  function NoDept(depts: seq<Department>): Department? {
    FirstDepartment(depts, true, Undefined)
  }

  /** `ext_faculty_process` (lines 26-182), on the rows of the faculty file
      and the rows of the departments file. The department map is built
      first (line 70), so a departments file that raises makes the whole
      call raise that exception, before the institution is looked up, and
      nothing changes. Without the institution the result is empty and
      nothing changes. Otherwise the result is the faculty members of the
      accepted rows in row order, or the exception of the first row that
      raises; when no row raises, the institution gained exactly the
      departments created, none of which it had before (see CreatedNew and
      CreatedOnce), and every stored author is its state before the run
      updated by the rows that name it. */
  method ExtFacultyProcess(store: Store, instId: int, rows: seq<Dict>, deptRows: seq<Dict>)
    returns (r: Result<seq<Author>>, ghost created: seq<Department>)
    requires forall i :: 0 <= i < |rows| ==> UniqueKeys(rows[i])
    modifies store.authors.Values, (if instId in store.institutions then {store.institutions[instId]} else {})`departments
    ensures Importers.DepartmentMap(deptRows).Err? ==>
              && r == Err(Importers.DepartmentMap(deptRows).error) && unchanged(store.authors.Values)
              && (instId in store.institutions ==> unchanged(store.institutions[instId]))
    ensures Importers.DepartmentMap(deptRows).Ok? && instId !in store.institutions ==>
              r == Ok([]) && unchanged(store.authors.Values)
    ensures instId in store.institutions ==> store.institutions[instId].country == old(store.institutions[instId].country)
    ensures Importers.DepartmentMap(deptRows).Ok? && instId in store.institutions ==>
              var deptMap := Importers.DepartmentMap(deptRows).value;
              var inst := store.institutions[instId];
              && r == Importers.Collect(Outcomes(store, deptMap, old(inst.departments), rows))
              && (r.Ok? ==>
                    && inst.departments == old(inst.departments) + created
                    && Created(created, inst.departments, inst, deptMap)
                    && (forall d | d in created :: d !in old(inst.departments))
                    && forall a | a in store.authors.Values ::
                         SnapshotOf(a) == Final(old(SnapshotOf(a)), store, rows, a, inst.departments, NoDept(old(inst.departments))))
  {
    created := [];
    var depts := Importers.ExtDepartmentProcess(deptRows);
    if depts.Err? {
      r := Err(depts.error);
    } else if instId !in store.institutions {
      r := Ok([]);
    } else {
      var inst := store.institutions[instId];
      var noDept := NoDept(inst.departments);
      ghost var snap0 := map a | a in store.authors.Values :: SnapshotOf(a);
      r, created := RunRows(store, inst, rows, depts.value, noDept, inst.departments, snap0);
    }
  }

  /** The loop of lines 87-182. */
  method RunRows(store: Store, inst: Institution, rows: seq<Dict>, deptMap: map<JsonVal, Dict>, noDept: Department?,
                 ghost known: seq<Department>, ghost snap0: map<Author, Snapshot>)
    returns (r: Result<seq<Author>>, ghost created: seq<Department>)
    requires forall i :: 0 <= i < |rows| ==> UniqueKeys(rows[i])
    requires inst.departments == known && forall a | a in store.authors.Values :: a in snap0 && SnapshotOf(a) == snap0[a]
    modifies store.authors.Values, inst`departments
    ensures r == Importers.Collect(Outcomes(store, deptMap, known, rows))
    ensures inst.country == old(inst.country)
    ensures r.Ok? ==>
              && inst.departments == known + created && Created(created, inst.departments, inst, deptMap)
              && (forall d | d in created :: d !in known)
              && Tracks(store, rows, snap0, inst.departments, noDept)
  {
    created := [];
    ghost var os := Outcomes(store, deptMap, known, rows);
    var faculties: seq<Author> := [];
    var error: Option<PyError> := None;
    assert rows[..0] == [] && os[..0] == [];
    assert known + [] == known;
    var i := 0;
    while i < |rows| && error.None?
      invariant 0 <= i <= |rows|
      invariant error.Some? ==> Importers.Collect(os[..i]) == Err(error.value)
      invariant error.None? ==>
                  && Importers.Collect(os[..i]) == Ok(faculties)
                  && inst.departments == known + created && Created(created, inst.departments, inst, deptMap)
                  && AllFound(store, rows[..i], inst.departments) && Tracks(store, rows[..i], snap0, inst.departments, noDept)
                  && (forall d | d in created :: d !in known)
    {
      var o;
      o, created := RunRow(store, inst, rows, i, deptMap, noDept, known, created, snap0);
      Importers.CollectStep(os, i);
      if o.Err? {
        error := Some(o.error);
      } else if o.value.Some? {
        faculties := faculties + [o.value.value];
      }
      i := i + 1;
    }
    if error.Some? {
      Importers.CollectErrPrefix(os, i);
      r := Err(error.value);
    } else {
      assert rows[..i] == rows && os[..i] == os;
      r := Ok(faculties);
    }
  }

  /** The loop of lines 87-182 at the row `rows[i]`. */
  method RunRow(store: Store, inst: Institution, rows: seq<Dict>, i: nat, deptMap: map<JsonVal, Dict>, noDept: Department?,
                ghost known: seq<Department>, ghost created: seq<Department>, ghost snap0: map<Author, Snapshot>)
    returns (o: Result<Option<Author>>, ghost created': seq<Department>)
    requires i < |rows| && UniqueKeys(rows[i])
    requires inst.departments == known + created && Created(created, inst.departments, inst, deptMap)
    requires AllFound(store, rows[..i], inst.departments) && Tracks(store, rows[..i], snap0, inst.departments, noDept)
    modifies store.authors.Values, inst`departments
    ensures o == Outcomes(store, deptMap, known, rows)[i]
    ensures o.Ok? ==>
              && inst.departments == known + created' && Created(created', inst.departments, inst, deptMap)
              && AllFound(store, rows[..i + 1], inst.departments) && Tracks(store, rows[..i + 1], snap0, inst.departments, noDept)
              && Extends(created, created') && (forall d | d in created' && d !in created :: d !in known)
  {
    assert rows[..i + 1] == rows[..i] + [rows[i]];
    o, created' := Visit(store, inst, rows[i], deptMap, noDept, known, created, rows[..i], snap0);
  }

  // ================================================================ what the run promises

  /** The faculty member of every accepted row is in the result, at the
      position given by the accepted rows before it. */
  lemma FacultiesInOrder(store: Store, deptMap: map<JsonVal, Dict>, known: seq<Department>, rows: seq<Dict>, i: nat)
    requires Importers.Collect(Outcomes(store, deptMap, known, rows)).Ok?
    requires i < |rows| && Faculty(store, rows[i]).Ok? && Faculty(store, rows[i]).value.Some?
    ensures var os := Outcomes(store, deptMap, known, rows);
            var out := Importers.Collect(os).value;
            Importers.Kept(os[..i]) < |out| && out[Importers.Kept(os[..i])] == Faculty(store, rows[i]).value.value
            && out[Importers.Kept(os[..i])] in store.authors.Values
  {
    var os := Outcomes(store, deptMap, known, rows);
    Importers.CollectOk(os);
    assert os[i].Ok?;
    Importers.CollectAt(os, i);
  }

  /** Every author in the result is the stored faculty member of a row. */
  lemma FacultiesStored(store: Store, deptMap: map<JsonVal, Dict>, known: seq<Department>, rows: seq<Dict>)
    requires Importers.Collect(Outcomes(store, deptMap, known, rows)).Ok?
    ensures var out := Importers.Collect(Outcomes(store, deptMap, known, rows)).value;
            |out| == Importers.Kept(Outcomes(store, deptMap, known, rows))
            && forall k :: 0 <= k < |out| ==>
                 exists i :: 0 <= i < |rows| && Faculty(store, rows[i]) == Ok(Some(out[k])) && out[k] in store.authors.Values
  {
    var os := Outcomes(store, deptMap, known, rows);
    var out := Importers.Collect(os).value;
    Importers.CollectLength(os);
    Importers.CollectFrom(os);
    forall k | 0 <= k < |out|
      ensures exists i :: 0 <= i < |rows| && Faculty(store, rows[i]) == Ok(Some(out[k])) && out[k] in store.authors.Values
    {
      var i :| 0 <= i < |os| && os[i] == Ok(Some(out[k]));
      assert Faculty(store, rows[i]) == Ok(Some(out[k]));
    }
  }

  /** An author that no row names keeps its state. */
  lemma {:induction false} FinalUnnamed(s: Snapshot, store: Store, rows: seq<Dict>, a: Author, depts: seq<Department>,
                                        noDept: Department?)
    requires forall j :: 0 <= j < |rows| ==> Faculty(store, rows[j]) != Ok(Some(a))
    decreases |rows|
    ensures Final(s, store, rows, a, depts, noDept) == s
  {
    if rows != [] {
      var p := rows[..|rows| - 1];
      assert forall j :: 0 <= j < |p| ==> p[j] == rows[j];
      FinalUnnamed(s, store, p, a, depts, noDept);
    }
  }

  /** A row updates its faculty member's record to the row's details, which
      make it a faculty member, and appends the row's profiles. */
  lemma UpdatedDetails(s: Snapshot, row: Dict, depts: seq<Department>, noDept: Department?)
    ensures var u := Updated(s, row, depts, noDept);
            u.record == Detailed(s.record, row).0 && u.record.kind == Str("Faculty")
            && u.profiles == s.profiles + Profiles(row).items
  {
    DetailsOutcome(s.record, row);
  }

  /** The departments after a row: each department other than `noDept`
      occurs as often as it did before plus as often as the row links it;
      `noDept`, when it occurs, occurs once less; and every department the
      row links is the institution's with the abbreviation the row names. */
  lemma UpdatedDepartments(s: Snapshot, row: Dict, depts: seq<Department>, noDept: Department?)
    requires Abbreviations(row).Ok? && AllNamed(depts, Abbreviations(row).value)
    ensures var abbrs := Abbreviations(row).value;
            var linked := Linked(depts, abbrs);
            var u := Updated(s, row, depts, noDept).departments;
            && |linked| == |abbrs|
            && (forall k :: 0 <= k < |abbrs| ==> linked[k] in depts && linked[k].abbreviation == Str(abbrs[k]))
            && (forall x: Department :: x != noDept ==> multiset(u)[x] == multiset(s.departments)[x] + multiset(linked)[x])
            && (noDept != null && noDept in s.departments + linked ==>
                  |u| == |s.departments| + |linked| - 1
                  && multiset(u)[noDept] == multiset(s.departments)[noDept] + multiset(linked)[noDept] - 1)
            && (noDept == null || noDept !in s.departments + linked ==> u == s.departments + linked)
  {
    var abbrs := Abbreviations(row).value;
    var linked := Linked(depts, abbrs);
    LinkedAllNamed(depts, abbrs);
    var all := s.departments + linked;
    assert multiset(all) == multiset(s.departments) + multiset(linked);
  }

  /** No department the institution had before the run has the
      abbreviation of a department the run created. */
  lemma CreatedNew(created: seq<Department>, known: seq<Department>, inst: Institution, deptMap: map<JsonVal, Dict>)
    requires Created(created, known + created, inst, deptMap) && forall d | d in created :: d !in known
    ensures forall k, d :: 0 <= k < |created| && d in known ==> d.abbreviation != created[k].abbreviation
  {
    forall k | 0 <= k < |created|
      ensures FirstDepartment(known, false, created[k].abbreviation) == null
    {
      FirstDepartmentAppend(known, created, false, created[k].abbreviation);
    }
  }

  /** The run creates at most one department per abbreviation. */
  lemma CreatedOnce(created: seq<Department>, known: seq<Department>, inst: Institution, deptMap: map<JsonVal, Dict>,
                    j: nat, k: nat)
    requires Created(created, known + created, inst, deptMap)
    requires j < k < |created| && created[j].abbreviation == created[k].abbreviation
    ensures created[j] == created[k]
  {
  }
}
