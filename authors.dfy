/** `author_process`: the authors of a paper, each with its position in the
    author list, found in the store or created with a Scopus profile, and
    linked to the departments of its affiliations. */
module Authors {
  import opened Wrappers
  import opened Py
  import PyStr
  import Helpers
  import opened Models
  import Institutions

  /** `int(get_key(auth, 'authid'))` inside `try ... except TypeError`: `None`
      when either step raises TypeError (the entry is skipped); any other
      exception escapes. */
  function AuthorIdOf(auth: JsonVal): (r: Result<Option<int>>)
    ensures r.Err? ==> r.error != TypeError
    ensures r.Ok? && r.value.Some? ==>
              Helpers.Get(auth, "authid", Null).Ok?
              && PyInt(Helpers.Get(auth, "authid", Null).value) == Ok(r.value.value)
  {
    match Helpers.Get(auth, "authid", Null)
    case Err(e) => if e == TypeError then Ok(None) else Err(e)
    case Ok(v) =>
      match PyInt(v)
      case Ok(n) => Ok(Some(n))
      case Err(e) => if e == TypeError then Ok(None) else Err(e)
  }

  /** An entry without an author id, or with a null one, is skipped. */
  lemma AuthorIdMissing(auth: JsonVal)
    requires !auth.Obj? || Lookup(auth.fields, "authid").None? || Lookup(auth.fields, "authid") == Some(Null)
    ensures AuthorIdOf(auth) == Ok(None)
  {
    if auth.Obj? {
      Helpers.KeyGetDefault(auth.fields, "authid", false, Null);
    }
  }

  /** `int(auth['@seq'])` inside `try ... except TypeError`: 0 when the
      entry is not a dict, whose subscript raises TypeError, or when the
      position is None (or not a str or an int); a missing key and a str
      that is not an int literal raise. */
  function AuthorNoOf(auth: JsonVal): (r: Result<int>)
    ensures auth.Obj? && Lookup(auth.fields, "@seq") == Some(Null) ==> r == Ok(0)
    ensures auth.Obj? && Lookup(auth.fields, "@seq").None? ==> r == Err(KeyError)
    ensures !auth.Obj? ==> r == Ok(0)
  {
    match GetItem(auth, "@seq")
    case Err(e) => if e == TypeError then Ok(0) else Err(e)
    case Ok(v) =>
      match PyInt(v)
      case Ok(n) => Ok(n)
      case Err(e) => if e == TypeError then Ok(0) else Err(e)
  }

  /** A position written as the text of an int is that int. */
  lemma AuthorNoOfText(auth: JsonVal, n: int)
    requires auth.Obj? && Lookup(auth.fields, "@seq") == Some(Str(PyStr.IntToStr(n)))
    ensures AuthorNoOf(auth) == Ok(n)
  {
    PyIntOfIntToStr(n);
  }

  /** What reading the author id gives for each entry. */
  function IdResults(entries: seq<JsonVal>): (r: seq<Result<Option<int>>>)
    ensures |r| == |entries| && forall p :: 0 <= p < |entries| ==> r[p] == AuthorIdOf(entries[p])
  {
    seq(|entries|, p requires 0 <= p < |entries| => AuthorIdOf(entries[p]))
  }

  /** The position and id of each entry the loop keeps, given what reading
      each entry's id gives: the first entry of each id, in entry order. */
  function Kept(ids: seq<Result<Option<int>>>): seq<(nat, int)>
    decreases |ids|
  {
    if ids == [] then []
    else
      var prev := Kept(ids[..|ids| - 1]);
      var a := ids[|ids| - 1];
      if a.Ok? && a.value.Some? && a.value.value !in IdsOf(prev) then prev + [(|ids| - 1, a.value.value)] else prev
  }

  /** Every entry's id was read without an exception. */
  predicate AllRead(ids: seq<Result<Option<int>>>)
    decreases |ids|
  {
    ids == [] || (AllRead(ids[..|ids| - 1]) && ids[|ids| - 1].Ok?)
  }

  lemma {:induction false} AllReadEach(ids: seq<Result<Option<int>>>)
    decreases |ids|
    ensures AllRead(ids) <==> forall p :: 0 <= p < |ids| ==> ids[p].Ok?
  {
    if ids != [] {
      var init := ids[..|ids| - 1];
      AllReadEach(init);
      assert forall p :: 0 <= p < |init| ==> init[p] == ids[p];
    }
  }

  /** The ids of a list of kept entries. */
  function IdsOf(kept: seq<(nat, int)>): (r: seq<int>)
    ensures |r| == |kept| && forall j :: 0 <= j < |kept| ==> r[j] == kept[j].1
  {
    seq(|kept|, j requires 0 <= j < |kept| => kept[j].1)
  }

  lemma IdsOfAppend(kept: seq<(nat, int)>, k: (nat, int))
    ensures IdsOf(kept + [k]) == IdsOf(kept) + [k.1]
  {
  }

  lemma KeptAppend(init: seq<Result<Option<int>>>, a: Result<Option<int>>)
    ensures var prev := Kept(init);
            Kept(init + [a]) ==
              if a.Ok? && a.value.Some? && a.value.value !in IdsOf(prev) then prev + [(|init|, a.value.value)] else prev
  {
    assert (init + [a])[..|init|] == init;
  }

  /** The kept entries are entries with that id, in increasing position,
      with pairwise distinct ids; there are at most as many as entries. */
  lemma {:induction false} KeptShape(ids: seq<Result<Option<int>>>)
    decreases |ids|
    ensures var k := Kept(ids);
            |k| <= |ids|
            && (forall j :: 0 <= j < |k| ==> k[j].0 < |ids| && ids[k[j].0] == Ok(Some(k[j].1)))
            && (forall j, l :: 0 <= j < l < |k| ==> k[j].0 < k[l].0 && k[j].1 != k[l].1)
  {
    if ids != [] {
      var init := ids[..|ids| - 1];
      var a := ids[|ids| - 1];
      assert ids == init + [a];
      KeptShape(init);
      KeptAppend(init, a);
      var prev := Kept(init);
      if a.Ok? && a.value.Some? && a.value.value !in IdsOf(prev) {
        var k := prev + [(|init|, a.value.value)];
        forall j | 0 <= j < |k| ensures k[j].0 < |ids| && ids[k[j].0] == Ok(Some(k[j].1)) {
          if j < |prev| { assert k[j] == prev[j] && ids[k[j].0] == init[k[j].0]; }
        }
        forall j, l | 0 <= j < l < |k| ensures k[j].0 < k[l].0 && k[j].1 != k[l].1 {
          assert k[j] == prev[j];
          if l < |prev| { assert k[l] == prev[l]; } else { assert IdsOf(prev)[j] == prev[j].1; }
        }
      } else {
        forall j | 0 <= j < |prev| ensures ids[prev[j].0] == Ok(Some(prev[j].1)) {
          assert ids[prev[j].0] == init[prev[j].0];
        }
      }
    }
  }

  /** Every id read without error is kept, at its first entry: later
      repeats are dropped. */
  lemma {:induction false} KeptFirst(ids: seq<Result<Option<int>>>, i: nat, n: int)
    requires i < |ids| && ids[i] == Ok(Some(n))
    decreases |ids|
    ensures exists j :: 0 <= j < |Kept(ids)| && Kept(ids)[j].1 == n && Kept(ids)[j].0 <= i
  {
    var init := ids[..|ids| - 1];
    var a := ids[|ids| - 1];
    assert ids == init + [a];
    KeptAppend(init, a);
    var prev := Kept(init);
    if i < |init| {
      assert init[i] == ids[i];
      KeptFirst(init, i, n);
      var j :| 0 <= j < |prev| && prev[j].1 == n && prev[j].0 <= i;
      assert Kept(ids)[j] == prev[j];
    } else if n in IdsOf(prev) {
      var j :| 0 <= j < |prev| && IdsOf(prev)[j] == n;
      KeptShape(init);
      assert Kept(ids)[j] == prev[j];
    } else {
      assert Kept(ids)[|prev|] == (i, n);
    }
  }

  /** The address of an author's Scopus profile. */
  function ProfileUrl(id: int): string {
    "https://www.scopus.com/authid/detail.uri?authorId=" + PyStr.IntToStr(id)
  }

  /** The one profile a new author is created with. */
  function ScopusProfile(id: int): AuthorProfile {
    AuthorProfile(Str(ProfileUrl(id)), "Scopus Profile")
  }

  /** The names a new author is created with: given name, surname and
      initials; there is no middle name. */
  datatype Names = Names(first: JsonVal, last: JsonVal, initials: JsonVal)

  function NewAuthorNames(auth: JsonVal): Result<Names> {
    var first :- Helpers.Get(auth, "given-name", Null);
    var last :- Helpers.Get(auth, "surname", Null);
    var initials :- Helpers.Get(auth, "initials", Null);
    Ok(Names(first, last, initials))
  }

  /** An author of that id with those names and no middle name. */
  predicate NamedAs(a: Author, id: int, names: Names) {
    a.idScp == id && a.first == names.first && a.middle == Null && a.last == names.last
    && a.initials == names.initials
  }

  /** A new author carries the names of its entry and one Scopus profile. */
  predicate IsNewAuthor(a: Author, id: int, names: Names)
    reads a
  {
    NamedAs(a, id, names) && a.profiles == [ScopusProfile(id)]
  }

  /** The stored author of that id, or a new one with its Scopus profile. */
  method FindOrCreateAuthor(store: Store, auth: JsonVal, id: int) returns (r: Result<Author>)
    requires Consistent(store)
    ensures id in store.authors ==> r == Ok(store.authors[id])
    ensures id !in store.authors ==>
              (r.Ok? <==> NewAuthorNames(auth).Ok?)
              && (r.Err? ==> r.error == NewAuthorNames(auth).error)
              && (r.Ok? ==> fresh(r.value) && IsNewAuthor(r.value, id, NewAuthorNames(auth).value)
                            && r.value.departments == [])
  {
    if id in store.authors {
      return Ok(store.authors[id]);
    }
    var names :- NewAuthorNames(auth);
    var author := new Author(id, names.first, Null, names.last, names.initials);
    author.profiles := author.profiles + [ScopusProfile(id)];
    return Ok(author);
  }

  /** At most one institution per id, and a stored one only as the store's object. */
  predicate NewInstsOk(store: Store, insts: set<Institution>) {
    (forall a, b | a in insts && b in insts && a.idScp == b.idScp :: a == b)
    && (forall a | a in insts && a.idScp in store.institutions :: a == store.institutions[a.idScp])
  }

  /** Every institution used for the paper so far was reached without an
      exception: `institution_process` raises nothing for its id. */
  predicate Made(store: Store, data: Dict, insts: set<Institution>) {
    forall i {:trigger Institutions.InstError(store, data, i.idScp)} | i in insts :: Institutions.InstError(store, data, i.idScp).None?
  }

  lemma MadeAdd(store: Store, data: Dict, insts: set<Institution>, i: Institution)
    requires Made(store, data, insts) && Institutions.InstError(store, data, i.idScp).None?
    ensures Made(store, data, insts + {i})
  {
  }

  /** Adding the store's institution, a member, or one whose id neither
      has keeps one institution per id. */
  lemma NewInstsAdd(store: Store, insts: set<Institution>, inst: Institution)
    requires Consistent(store) && NewInstsOk(store, insts)
    requires (inst.idScp in store.institutions && inst == store.institutions[inst.idScp])
             || (inst.idScp !in store.institutions && inst in insts)
             || (inst.idScp !in store.institutions && forall i :: i in insts ==> i.idScp != inst.idScp)
    ensures NewInstsOk(store, insts + {inst})
  {
  }

  /** What `author_process` can change in an institution. */
  datatype InstState = InstState(country: Country?, departments: seq<Department>)

  /** The state of the stored institutions and of `insts`, as a value, so
      that what holds of it survives changes to other objects. */
  ghost function View(store: Store, insts: set<Institution>): (r: map<Institution, InstState>)
    reads store.institutions.Values, insts
    ensures r.Keys == store.institutions.Values + insts
  {
    map i | i in store.institutions.Values + insts :: InstState(i.country, i.departments)
  }

  /** The view of a larger set of institutions agrees with that of a smaller one. */
  lemma ViewSub(store: Store, insts: set<Institution>, more: set<Institution>)
    requires insts <= more
    ensures Same(View(store, insts), View(store, more), {})
  {
  }

  /** Every institution of `st0` is in `st1`, with the same state unless
      it is one of `touched`. */
  ghost predicate Same(st0: map<Institution, InstState>, st1: map<Institution, InstState>, touched: set<Institution>) {
    forall i | i in st0 :: i in st1 && (i !in touched ==> st1[i] == st0[i])
  }

  lemma SameTrans(st0: map<Institution, InstState>, st1: map<Institution, InstState>, st2: map<Institution, InstState>,
                  t1: set<Institution>, t2: set<Institution>)
    requires Same(st0, st1, t1) && Same(st1, st2, t2)
    ensures Same(st0, st2, t1 + t2)
  {
  }

  /** The institutions created or used for a paper so far, in state `st`:
      each has an 'Undefined' department, and one the store lacks has only
      that one. */
  ghost predicate Shaped(store: Store, insts: set<Institution>, st: map<Institution, InstState>) {
    forall i | i in insts ::
      i in st && FirstDepartment(st[i].departments, true, Undefined) != null
      && (i.idScp !in store.institutions ==> |st[i].departments| == 1 && Institutions.IsUndefinedDepartment(st[i].departments[0]))
  }

  /** The set is shaped in its own view, and holds one institution per id. */
  ghost predicate Ready(store: Store, insts: set<Institution>)
    reads store.institutions.Values, insts
  {
    NewInstsOk(store, insts) && Shaped(store, insts, View(store, insts))
  }

  /** A shaped set stays shaped while none of its members changes. */
  lemma ShapedStays(store: Store, insts: set<Institution>, st0: map<Institution, InstState>,
                    st1: map<Institution, InstState>, touched: set<Institution>)
    requires Shaped(store, insts, st0) && Same(st0, st1, touched) && insts !! touched
    ensures Shaped(store, insts, st1)
  {
  }

  /** A shaped set none of whose members changed stays shaped with an
      institution that has an 'Undefined' department, and only that one
      when the store lacks its id. */
  lemma ReadyAdd(store: Store, insts: set<Institution>, inst: Institution, st0: map<Institution, InstState>,
                 touched: set<Institution>)
    requires NewInstsOk(store, insts + {inst}) && Shaped(store, insts, st0)
    requires Same(st0, View(store, insts), touched) && insts !! touched
    requires FirstDepartment(inst.departments, true, Undefined) != null
    requires inst.idScp !in store.institutions ==>
               |inst.departments| == 1 && Institutions.IsUndefinedDepartment(inst.departments[0])
    ensures Ready(store, insts + {inst})
  {
    ShapedStays(store, insts, st0, View(store, insts), touched);
    ViewSub(store, insts, insts + {inst});
    ShapedStays(store, insts, View(store, insts), View(store, insts + {inst}), {});
  }

  /** An institution whose id the store lacks is none of the stored ones. */
  lemma InstNotStored(store: Store, i: Institution)
    requires Consistent(store) && i.idScp !in store.institutions
    ensures i !in store.institutions.Values
  {
    forall k | k in store.institutions ensures store.institutions[k] != i { }
  }

  /** A department named 'Undefined' at the head of a list is its first one. */
  lemma FirstUndefinedHead(ds: seq<Department>)
    requires ds != [] && ds[0].name == Undefined
    ensures FirstDepartment(ds, true, Undefined) == ds[0]
  {
  }

  /** Appending an 'Undefined' department to a list that has none makes it the first. */
  lemma FirstUndefinedAppended(ds: seq<Department>, d: Department)
    requires FirstDepartment(ds, true, Undefined) == null && d.name == Undefined
    ensures FirstDepartment(ds + [d], true, Undefined) == d
  {
    assert (ds + [d])[|ds|] == d;
  }

  /** `institution_process` for one affiliation id: `None` exactly when the
      record lists no affiliation of that id; otherwise the institution of
      that id (the store's, one already created for the paper, or a new one
      whose id no created one has) with its first 'Undefined' department.
      Only that institution can change, and only when it was not yet used. */
  method AffiliationOf(store: Store, data: Dict, instId: int, newInsts: set<Institution>)
    returns (r: Result<(Institution?, Department?)>)
    requires Consistent(store) && Ready(store, newInsts) && Made(store, data, newInsts)
    modifies store.institutions.Values
    ensures r.Err? <==> Institutions.InstError(store, data, instId).Some?
    ensures r.Err? ==> r.error == Institutions.InstError(store, data, instId).value
    ensures Institutions.Found(data, instId).Err? ==> r == Err(Institutions.Found(data, instId).error)
    ensures r.Ok? ==> Institutions.Found(data, instId).Ok?
                      && (r.value.0 == null <==> Institutions.Found(data, instId) == Ok(None))
    ensures r.Ok? && r.value.0 == null ==> r.value.1 == null
    ensures r.Ok? && r.value.0 != null ==>
              r.value.0.idScp == instId
              && r.value.1 == FirstDepartment(r.value.0.departments, true, Undefined)
              && Ready(store, newInsts + {r.value.0})
    ensures Same(old(View(store, newInsts)), View(store, newInsts), if r.Ok? && r.value.0 != null then {r.value.0} - newInsts else {})
  {
    forall i | i in newInsts && i.idScp !in store.institutions ensures i !in store.institutions.Values {
      InstNotStored(store, i);
    }
    ghost var found := Institutions.Found(data, instId);
    ghost var v0 := View(store, newInsts);
    r := Institutions.InstitutionProcess(store, data, instId, newInsts);
    ghost var touched := if r.Ok? && r.value.0 != null then {r.value.0} - newInsts else {};
    forall i | i in v0 && i !in touched ensures View(store, newInsts)[i] == v0[i] {
      if found.Ok? && found.value.Some? && instId in store.institutions && i == store.institutions[instId] {
        assert old(FirstDepartment(i.departments, true, Undefined)) != null;
      }
      assert i.country == old(i.country) && i.departments == old(i.departments);
    }
    if r.Ok? && r.value.0 != null {
      var inst: Institution, dept := r.value.0, r.value.1;
      NewInstsAdd(store, newInsts, inst);
      if instId in store.institutions {
        if old(FirstDepartment(inst.departments, true, Undefined)) == null {
          FirstUndefinedAppended(old(inst.departments), dept);
        }
      } else {
        FirstUndefinedHead(inst.departments);
      }
      ReadyAdd(store, newInsts, inst, v0, {inst} - newInsts);
    }
  }

  /** A link made by the inner loop: an institution and the department
      appended to the author for it. */
  type Link = (Institution, Department)

  /** The departments the links append, in order. */
  function Depts(links: seq<Link>): (r: seq<Department>)
    ensures |r| == |links| && forall k :: 0 <= k < |links| ==> r[k] == links[k].1
  {
    seq(|links|, k requires 0 <= k < |links| => links[k].1)
  }

  /** The institution ids of the links, in order. */
  function LinkIds(links: seq<Link>): (r: seq<int>)
    ensures |r| == |links| && forall k :: 0 <= k < |links| ==> r[k] == links[k].0.idScp
  {
    seq(|links|, k requires 0 <= k < |links| => links[k].0.idScp)
  }

  lemma LinksAppend(a: seq<Link>, b: seq<Link>)
    ensures Depts(a + b) == Depts(a) + Depts(b) && LinkIds(a + b) == LinkIds(a) + LinkIds(b)
  {
    assert forall k :: 0 <= k < |a + b| ==> (a + b)[k] == if k < |a| then a[k] else b[k - |a|];
  }

  /** Each link is to an institution of `insts`, by that institution's
      first 'Undefined' department in state `st`. */
  ghost predicate LinksIn(links: seq<Link>, insts: set<Institution>, st: map<Institution, InstState>) {
    forall k :: 0 <= k < |links| ==>
      links[k].0 in insts && links[k].0 in st && links[k].1 == FirstDepartment(st[links[k].0].departments, true, Undefined)
  }

  /** Links to a set of institutions hold on in a later state where the
      set has grown and only institutions outside it changed. */
  lemma LinksInGrow(a: seq<Link>, insts: set<Institution>, more: set<Institution>,
                    st0: map<Institution, InstState>, st1: map<Institution, InstState>)
    requires LinksIn(a, insts, st0) && insts <= more && Same(st0, st1, more - insts)
    ensures LinksIn(a, more, st1)
  {
    forall k | 0 <= k < |a| ensures a[k].0 in st1 && st1[a[k].0] == st0[a[k].0] {
      assert a[k].0 in insts;
    }
  }

  lemma LinksInAppend(a: seq<Link>, b: seq<Link>, insts: set<Institution>, st: map<Institution, InstState>)
    requires LinksIn(a, insts, st) && LinksIn(b, insts, st)
    ensures LinksIn(a + b, insts, st)
  {
    assert forall k :: 0 <= k < |a + b| ==> (a + b)[k] == if k < |a| then a[k] else b[k - |a|];
  }

  /** The ids among `vals` whose affiliation the record lists, in order:
      those for which `institution_process` returns an institution. */
  function Affiliated(data: Dict, vals: seq<JsonVal>): (r: seq<int>)
    decreases |vals|
    ensures |r| <= |vals|
  {
    if vals == [] then []
    else
      var prev := Affiliated(data, vals[..|vals| - 1]);
      var n := PyInt(vals[|vals| - 1]);
      if n.Ok? && Institutions.Found(data, n.value).Ok? && Institutions.Found(data, n.value).value.Some? then prev + [n.value]
      else prev
  }

  lemma AffiliatedStep(data: Dict, vals: seq<JsonVal>, k: nat)
    requires k < |vals|
    ensures Affiliated(data, vals[..k + 1]) == Affiliated(data, vals[..k]) + Affiliated(data, [vals[k]])
  {
    assert vals[..k + 1][..k] == vals[..k];
    assert [vals[k]][..0] == [];
  }

  /** Every id `Affiliated` gives is one of the values, read as an int,
      whose affiliation the record lists. */
  lemma {:induction false} AffiliatedListed(data: Dict, vals: seq<JsonVal>, n: int)
    decreases |vals|
    ensures n in Affiliated(data, vals) ==>
              exists v :: v in vals && PyInt(v) == Ok(n) && Institutions.Found(data, n).Ok? && Institutions.Found(data, n).value.Some?
  {
    if vals != [] && n in Affiliated(data, vals) {
      var init := vals[..|vals| - 1];
      if n in Affiliated(data, init) {
        AffiliatedListed(data, init, n);
        var v :| v in init && PyInt(v) == Ok(n) && Institutions.Found(data, n).Ok? && Institutions.Found(data, n).value.Some?;
        assert v in vals;
      } else {
        assert vals[|vals| - 1] in vals;
      }
    }
  }

  /** The exception the inner loop's body raises for the afid value `v`,
      if any: `int(inst_id)`'s, or `institution_process`'s. */
  function AfidError(store: Store, data: Dict, v: JsonVal): Option<PyError> {
    match PyInt(v)
    case Err(e) => Some(e)
    case Ok(n) => Institutions.InstError(store, data, n)
  }

  /** The first exception raised when the values `vals` are visited in order. */
  function FirstAfidError(store: Store, data: Dict, vals: seq<JsonVal>): Option<PyError>
    decreases |vals|
  {
    if vals == [] then None
    else
      var prev := FirstAfidError(store, data, vals[..|vals| - 1]);
      if prev.Some? then prev else AfidError(store, data, vals[|vals| - 1])
  }

  lemma FirstAfidSnoc(store: Store, data: Dict, vals: seq<JsonVal>, v: JsonVal)
    ensures FirstAfidError(store, data, vals + [v])
            == if FirstAfidError(store, data, vals).Some? then FirstAfidError(store, data, vals) else AfidError(store, data, v)
  {
    assert (vals + [v])[..|vals|] == vals;
  }

  /** Once a value has raised, the values after it are never visited. */
  lemma {:induction false} FirstAfidStays(store: Store, data: Dict, vals: seq<JsonVal>, more: seq<JsonVal>)
    requires FirstAfidError(store, data, vals).Some?
    decreases |more|
    ensures FirstAfidError(store, data, vals + more) == FirstAfidError(store, data, vals)
  {
    if more != [] {
      var init := more[..|more| - 1];
      FirstAfidStays(store, data, vals, init);
      assert vals + more == (vals + init) + [more[|more| - 1]];
      FirstAfidSnoc(store, data, vals + init, more[|more| - 1]);
    } else {
      assert vals + more == vals;
    }
  }

  /** Visiting values in order raises nothing exactly when none of them
      raises, whatever the order. */
  lemma {:induction false} FirstAfidNone(store: Store, data: Dict, vals: seq<JsonVal>)
    decreases |vals|
    ensures FirstAfidError(store, data, vals).None? <==> forall v | v in vals :: AfidError(store, data, v).None?
  {
    if vals != [] {
      var init := vals[..|vals| - 1];
      FirstAfidNone(store, data, init);
      assert vals == init + [vals[|vals| - 1]];
    }
  }

  /** The exceptions visiting the set `vs` can raise: any failing member's,
      since the member visited first depends on the set's iteration order. */
  function SetErrors(store: Store, data: Dict, vs: set<JsonVal>): set<PyError> {
    set v | v in vs && AfidError(store, data, v).Some? :: AfidError(store, data, v).value
  }

  /** A listing of the set whose visit raises nothing shows that no member raises. */
  lemma SetErrorsNone(store: Store, data: Dict, vs: set<JsonVal>, order: seq<JsonVal>)
    requires multiset(order) == multiset(vs) && FirstAfidError(store, data, order).None?
    ensures SetErrors(store, data, vs) == {}
  {
    FirstAfidNone(store, data, order);
    forall v | v in vs ensures AfidError(store, data, v).None? {
      assert v in multiset(vs);
    }
  }

  /** A member visited after members that raised nothing, and raising:
      its exception is one the set can raise, and the first raised. */
  lemma SetErrorsFirst(store: Store, data: Dict, vs: set<JsonVal>, order: seq<JsonVal>, v: JsonVal)
    requires multiset(order) + multiset{v} <= multiset(vs) && FirstAfidError(store, data, order).None?
    requires AfidError(store, data, v).Some?
    ensures AfidError(store, data, v).value in SetErrors(store, data, vs)
    ensures multiset(order + [v]) <= multiset(vs) && FirstAfidError(store, data, order + [v]) == AfidError(store, data, v)
  {
    assert v in multiset(vs);
    FirstAfidSnoc(store, data, order, v);
  }

  /** The exception an option holds, as a set of at most one. */
  function Raised(e: Option<PyError>): set<PyError> {
    if e.Some? then {e.value} else {}
  }

  /** The exceptions reading an entry's afid values and visiting them can
      raise: `key_get`'s, `iter`'s, then the first value's to raise in list
      order, or any failing member's of a set. */
  function LinkErrors(store: Store, data: Dict, auth: JsonVal): set<PyError> {
    match Helpers.KeyGet(auth, "afid", true, Arr([]))
    case Err(e) => {e}
    case Ok(got) =>
      match got
      case One(v) => (match Iter(v) case Err(e) => {e} case Ok(vals) => Raised(FirstAfidError(store, data, vals)))
      case Many(vs) => SetErrors(store, data, vs)
  }

  lemma LinkErrorsCases(store: Store, data: Dict, auth: JsonVal)
    ensures var got := Helpers.KeyGet(auth, "afid", true, Arr([]));
            (got.Err? ==> LinkErrors(store, data, auth) == {got.error})
            && (got.Ok? && got.value.One? && Iter(got.value.v).Err? ==> LinkErrors(store, data, auth) == {Iter(got.value.v).error})
            && (got.Ok? && got.value.One? && Iter(got.value.v).Ok? ==>
                  LinkErrors(store, data, auth) == Raised(FirstAfidError(store, data, Iter(got.value.v).value)))
            && (got.Ok? && got.value.Many? ==> LinkErrors(store, data, auth) == SetErrors(store, data, got.value.vs))
  {
  }

  /** `author.departments.append(department)`; no institution changes. */
  method AttachLink(store: Store, author: Author, insts: set<Institution>, d: Department)
    modifies author`departments
    ensures author.departments == old(author.departments) + [d]
    ensures author.profiles == old(author.profiles)
    ensures View(store, insts) == old(View(store, insts))
  {
    author.departments := author.departments + [d];
  }

  /** One pass of the inner loop: `institution_process` for `int(inst_id)`,
      its department appended to the author, its institution added to
      `new_institutions`. The ghost `reached` is that set whether or not an
      exception escapes; `links` is the link made, if any. */
  method LinkOne(store: Store, data: Dict, author: Author, instIdVal: JsonVal, newInsts: set<Institution>)
    returns (r: Result<set<Institution>>, ghost reached: set<Institution>, ghost links: seq<Link>)
    requires Consistent(store) && Ready(store, newInsts) && Made(store, data, newInsts)
    modifies store.institutions.Values, author`departments
    ensures author.profiles == old(author.profiles)
    ensures newInsts <= reached && Ready(store, reached) && Made(store, data, reached)
    ensures Same(old(View(store, newInsts)), View(store, reached), reached - newInsts)
    ensures r.Err? <==> AfidError(store, data, instIdVal).Some?
    ensures r.Err? ==> r.error == AfidError(store, data, instIdVal).value
    ensures r.Ok? ==> r.value == reached && LinkIds(links) == Affiliated(data, [instIdVal])
                      && author.departments == old(author.departments) + Depts(links) && LinksIn(links, reached, View(store, reached))
  {
    reached, links := newInsts, [];
    var n := PyInt(instIdVal);
    if n.Err? {
      r := Err(n.error);
    } else {
      r, reached, links := LinkAffiliation(store, data, author, n.value, newInsts);
      AffiliatedNum(store, data, instIdVal, n.value);
    }
  }

  /** A value read as the int `n` links and raises as `n` does. */
  lemma AffiliatedNum(store: Store, data: Dict, v: JsonVal, n: int)
    requires PyInt(v) == Ok(n)
    ensures Affiliated(data, [v]) == Affiliated(data, [Num(n)])
    ensures AfidError(store, data, v) == Institutions.InstError(store, data, n)
  {
    assert [v][..0] == [Num(n)][..0];
  }

  /** The body of the inner loop once `int(inst_id)` is read. */
  method LinkAffiliation(store: Store, data: Dict, author: Author, instId: int, newInsts: set<Institution>)
    returns (r: Result<set<Institution>>, ghost reached: set<Institution>, ghost links: seq<Link>)
    requires Consistent(store) && Ready(store, newInsts) && Made(store, data, newInsts)
    modifies store.institutions.Values, author`departments
    ensures author.profiles == old(author.profiles)
    ensures newInsts <= reached && Ready(store, reached) && Made(store, data, reached)
    ensures Same(old(View(store, newInsts)), View(store, reached), reached - newInsts)
    ensures r.Err? <==> Institutions.InstError(store, data, instId).Some?
    ensures r.Err? ==> r.error == Institutions.InstError(store, data, instId).value
    ensures r.Ok? ==> r.value == reached && LinkIds(links) == Affiliated(data, [Num(instId)])
                      && author.departments == old(author.departments) + Depts(links) && LinksIn(links, reached, View(store, reached))
  {
    reached, links := newInsts, [];
    ghost var departments, profiles := author.departments, author.profiles;
    var pair := AffiliationOf(store, data, instId, newInsts);
    assert author.departments == departments && author.profiles == profiles;
    if pair.Err? {
      r := Err(pair.error);
    } else if pair.value.0 == null {
      r := Ok(newInsts);
    } else {
      var i: Institution, d: Department := pair.value.0, pair.value.1;
      MadeAdd(store, data, newInsts, i);
      reached, links := newInsts + {i}, [(i, d)];
      ghost var v1, st := View(store, newInsts), View(store, reached);
      ViewSub(store, newInsts, reached);
      AttachLink(store, author, newInsts + {i}, d);
      OneLink(data, instId, newInsts, i, d, old(View(store, newInsts)), v1, st);
      r := Ok(newInsts + {i});
    }
  }

  /** The link made for an affiliation the record lists: its id is the one
      `Affiliated` keeps, its department the institution's first
      'Undefined' one, and only that institution changed. */
  lemma OneLink(data: Dict, instId: int, newInsts: set<Institution>, i: Institution, d: Department,
                v0: map<Institution, InstState>, v1: map<Institution, InstState>, st: map<Institution, InstState>)
    requires Institutions.Found(data, instId).Ok? && Institutions.Found(data, instId).value.Some?
    requires i.idScp == instId && i in st && d == FirstDepartment(st[i].departments, true, Undefined)
    requires Same(v0, v1, {i} - newInsts) && Same(v1, st, {})
    ensures LinkIds([(i, d)]) == Affiliated(data, [Num(instId)]) && Depts([(i, d)]) == [d]
    ensures LinksIn([(i, d)], newInsts + {i}, st) && Same(v0, st, (newInsts + {i}) - newInsts)
  {
    assert [Num(instId)][..0] == [];
    assert (newInsts + {i}) - newInsts == {i} - newInsts;
  }

  /** Links made after others extend the ids and departments linked. */
  lemma LinksSnoc(departments: seq<Department>, links: seq<Link>, ids: seq<int>, depts: seq<Department>,
                  step: seq<Link>, more: seq<int>, depts': seq<Department>)
    requires LinkIds(links) == ids && depts == departments + Depts(links)
    requires LinkIds(step) == more && depts' == depts + Depts(step)
    ensures LinkIds(links + step) == ids + more && depts' == departments + Depts(links + step)
  {
    LinksAppend(links, step);
    assert depts' == departments + (Depts(links) + Depts(step));
  }

  lemma AffiliatedSnoc(data: Dict, vals: seq<JsonVal>, v: JsonVal)
    ensures Affiliated(data, vals + [v]) == Affiliated(data, vals) + Affiliated(data, [v])
  {
    assert (vals + [v])[..|vals|] == vals;
    assert [v][..0] == [];
  }

  /** What an inner loop keeps once it has visited the values `visited`,
      having begun with the institutions `newInsts` in state `st0` and the
      author's departments `departments`: the institutions `insts` used so
      far, in state `st`, hold one institution per id and are shaped; only
      those added since the start changed; the links made so far are to
      them, one per visited value whose affiliation the record lists; and
      the author's departments are now `depts`, the old ones followed by
      the links' departments. */
  ghost predicate Linked(store: Store, data: Dict, newInsts: set<Institution>, st0: map<Institution, InstState>,
                         departments: seq<Department>, insts: set<Institution>, st: map<Institution, InstState>,
                         links: seq<Link>, visited: seq<JsonVal>, depts: seq<Department>) {
    newInsts <= insts && NewInstsOk(store, insts) && Made(store, data, insts) && Shaped(store, insts, st)
    && Same(st0, st, insts - newInsts)
    && LinkIds(links) == Affiliated(data, visited) && depts == departments + Depts(links) && LinksIn(links, insts, st)
  }

  /** A pass of an inner loop over the values `visited + [v]`: what the
      loop keeps holds on; when an exception escapes, the institutions
      still changed only as the loop allows. */
  method LinkStep(store: Store, data: Dict, author: Author, v: JsonVal, newInsts: set<Institution>, insts: set<Institution>,
                  ghost links: seq<Link>, ghost visited: seq<JsonVal>, ghost st0: map<Institution, InstState>,
                  ghost departments: seq<Department>)
    returns (r: Result<set<Institution>>, ghost reached: set<Institution>, ghost links': seq<Link>)
    requires Consistent(store)
    requires Linked(store, data, newInsts, st0, departments, insts, View(store, insts), links, visited, author.departments)
    modifies store.institutions.Values, author`departments
    ensures author.profiles == old(author.profiles)
    ensures r.Err? <==> AfidError(store, data, v).Some?
    ensures r.Err? ==> r.error == AfidError(store, data, v).value
    ensures r.Ok? ==> r.value == reached
                      && Linked(store, data, newInsts, st0, departments, reached, View(store, reached), links', visited + [v], author.departments)
    ensures r.Err? ==> newInsts <= reached && Ready(store, reached) && Made(store, data, reached) && Same(st0, View(store, reached), reached - newInsts)
  {
    ghost var st1, depts := View(store, insts), author.departments;
    ghost var step;
    r, reached, step := LinkOne(store, data, author, v, insts);
    links' := links + step;
    LinkedStep(store, data, newInsts, st0, departments, insts, st1, links, visited, depts,
               reached, View(store, reached), step, v, author.departments, r.Ok?);
  }

  /** The facts behind `LinkStep`. */
  lemma LinkedStep(store: Store, data: Dict, newInsts: set<Institution>, st0: map<Institution, InstState>,
                   departments: seq<Department>, insts: set<Institution>, st1: map<Institution, InstState>,
                   links: seq<Link>, visited: seq<JsonVal>, depts: seq<Department>,
                   reached: set<Institution>, st2: map<Institution, InstState>, step: seq<Link>, v: JsonVal,
                   depts': seq<Department>, ok: bool)
    requires Linked(store, data, newInsts, st0, departments, insts, st1, links, visited, depts)
    requires insts <= reached && NewInstsOk(store, reached) && Made(store, data, reached) && Shaped(store, reached, st2)
    requires Same(st1, st2, reached - insts)
    requires ok ==> LinkIds(step) == Affiliated(data, [v]) && depts' == depts + Depts(step) && LinksIn(step, reached, st2)
    ensures Same(st0, st2, reached - newInsts)
    ensures ok ==> Linked(store, data, newInsts, st0, departments, reached, st2, links + step, visited + [v], depts')
  {
    SameGrow(st0, st1, st2, newInsts, insts, reached);
    if ok {
      AffiliatedSnoc(data, visited, v);
      LinksSnoc(departments, links, Affiliated(data, visited), depts, step, Affiliated(data, [v]), depts');
      LinksInGrow(links, insts, reached, st1, st2);
      LinksInAppend(links, step, reached, st2);
    }
  }

  /** The institutions changed since `st0` grow from `insts` to `reached`. */
  lemma SameGrow(st0: map<Institution, InstState>, st1: map<Institution, InstState>, st2: map<Institution, InstState>,
                 newInsts: set<Institution>, insts: set<Institution>, reached: set<Institution>)
    requires newInsts <= insts <= reached && Same(st0, st1, insts - newInsts) && Same(st1, st2, reached - insts)
    ensures Same(st0, st2, reached - newInsts)
  {
    SameTrans(st0, st1, st2, insts - newInsts, reached - insts);
    assert (insts - newInsts) + (reached - insts) == reached - newInsts;
  }

  /** Moving the first of the values still to visit to those visited
      keeps their concatenation. */
  lemma SplitFirst<T>(visited: seq<T>, rest: seq<T>, all: seq<T>)
    requires visited + rest == all && rest != []
    ensures (visited + [rest[0]]) + rest[1..] == all
  {
    assert rest == [rest[0]] + rest[1..];
  }

  /** The inner loop over the affiliation ids when `key_get` gives a list
      (or any other iterable value): one link per id whose affiliation the
      record lists, in order. */
  method LinkEach(store: Store, data: Dict, author: Author, ids: seq<JsonVal>, newInsts: set<Institution>)
    returns (r: Result<set<Institution>>, ghost reached: set<Institution>, ghost links: seq<Link>)
    requires Consistent(store) && Ready(store, newInsts) && Made(store, data, newInsts)
    modifies store.institutions.Values, author`departments
    ensures author.profiles == old(author.profiles)
    ensures r.Err? <==> FirstAfidError(store, data, ids).Some?
    ensures r.Err? ==> r.error == FirstAfidError(store, data, ids).value
    ensures r.Ok? ==> r.value == reached
                      && Linked(store, data, newInsts, old(View(store, newInsts)), old(author.departments),
                                reached, View(store, reached), links, ids, author.departments)
    ensures r.Err? ==> newInsts <= reached && Ready(store, reached) && Made(store, data, reached) && Same(old(View(store, newInsts)), View(store, reached), reached - newInsts)
  {
    var insts := newInsts;
    links := [];
    ghost var visited := [];
    ghost var st0 := View(store, newInsts);
    ghost var departments := author.departments;
    ViewSub(store, newInsts, newInsts);
    ghost var st, depts := st0, departments;
    var rest := ids;
    while rest != []
      invariant visited + rest == ids && FirstAfidError(store, data, visited).None?
      invariant st == View(store, insts) && depts == author.departments
      invariant Linked(store, data, newInsts, st0, departments, insts, st, links, visited, depts)
    {
      var next;
      ghost var more, links';
      next, more, links' := LinkStep(store, data, author, rest[0], newInsts, insts, links, visited, st0, departments);
      SplitFirst(visited, rest, ids);
      FirstAfidSnoc(store, data, visited, rest[0]);
      if next.Err? {
        FirstAfidStays(store, data, visited + [rest[0]], rest[1..]);
        r, reached := Err(next.error), more;
        return;
      }
      insts, links, visited, rest := next.value, links', visited + [rest[0]], rest[1..];
      st, depts := View(store, insts), author.departments;
    }
    assert visited == visited + rest == ids;
    r, reached := Ok(insts), insts;
  }

  /** The inner loop over the affiliation ids when `key_get` gives a set:
      the set is visited in an arbitrary order, the ghost `order`, which
      lists each member once. */
  method LinkSet(store: Store, data: Dict, author: Author, ids: set<JsonVal>, newInsts: set<Institution>)
    returns (r: Result<set<Institution>>, ghost reached: set<Institution>, ghost links: seq<Link>, ghost order: seq<JsonVal>)
    requires Consistent(store) && Ready(store, newInsts) && Made(store, data, newInsts)
    modifies store.institutions.Values, author`departments
    ensures author.profiles == old(author.profiles)
    ensures r.Err? <==> SetErrors(store, data, ids) != {}
    ensures r.Err? ==> r.error in SetErrors(store, data, ids)
                       && multiset(order) <= multiset(ids) && FirstAfidError(store, data, order) == Some(r.error)
    ensures r.Ok? ==> r.value == reached && multiset(order) == multiset(ids)
                      && Linked(store, data, newInsts, old(View(store, newInsts)), old(author.departments),
                                reached, View(store, reached), links, order, author.departments)
    ensures r.Err? ==> newInsts <= reached && Ready(store, reached) && Made(store, data, reached) && Same(old(View(store, newInsts)), View(store, reached), reached - newInsts)
  {
    var insts := newInsts;
    links, order := [], [];
    ghost var st0 := View(store, newInsts);
    ghost var departments := author.departments;
    ViewSub(store, newInsts, newInsts);
    var rest := ids;
    ghost var st, depts := st0, departments;
    while rest != {}
      invariant multiset(order) + multiset(rest) == multiset(ids) && FirstAfidError(store, data, order).None?
      invariant st == View(store, insts) && depts == author.departments
      invariant Linked(store, data, newInsts, st0, departments, insts, st, links, order, depts)
      decreases |rest|
    {
      var id :| id in rest;
      Pick(order, rest, ids, id);
      rest := rest - {id};
      var next;
      ghost var more, links';
      next, more, links' := LinkStep(store, data, author, id, newInsts, insts, links, order, st0, departments);
      if next.Err? {
        SetErrorsFirst(store, data, ids, order, id);
        r, reached, order := Err(next.error), more, order + [id];
        return;
      }
      FirstAfidSnoc(store, data, order, id);
      insts, links, order := next.value, links', order + [id];
      st, depts := View(store, insts), author.departments;
    }
    SetErrorsNone(store, data, ids, order);
    r, reached := Ok(insts), insts;
  }

  /** Moving a member of the set still to visit to the listing of those visited. */
  lemma Pick(order: seq<JsonVal>, rest: set<JsonVal>, ids: set<JsonVal>, id: JsonVal)
    requires multiset(order) + multiset(rest) == multiset(ids) && id in rest
    ensures multiset(order + [id]) + multiset(rest - {id}) == multiset(ids)
    ensures multiset(order) + multiset{id} <= multiset(ids)
  {
    assert multiset(rest) == multiset(rest - {id}) + multiset{id};
  }

  /** The afid values of an entry in the order the inner loop visits them:
      the list `key_get(auth, 'afid', many=True, default=[])` gives, or a
      listing of the set it gives. */
  predicate AfidOrder(auth: JsonVal, order: seq<JsonVal>) {
    match Helpers.KeyGet(auth, "afid", true, Arr([]))
    case Err(_) => false
    case Ok(got) =>
      match got
      case One(v) => Iter(v) == Ok(order)
      case Many(vs) => multiset(order) == multiset(vs)
  }

  /** The afid values of an entry, then the inner loop over them: one link
      per value whose affiliation the record lists, in the order visited. */
  method LinkAffiliations(store: Store, data: Dict, auth: JsonVal, author: Author, newInsts: set<Institution>)
    returns (r: Result<set<Institution>>, ghost reached: set<Institution>, ghost links: seq<Link>, ghost order: seq<JsonVal>)
    requires Consistent(store) && Ready(store, newInsts) && Made(store, data, newInsts)
    modifies store.institutions.Values, author`departments
    ensures author.profiles == old(author.profiles)
    ensures newInsts <= reached && Ready(store, reached) && Made(store, data, reached)
    ensures Same(old(View(store, newInsts)), View(store, reached), reached - newInsts)
    ensures r.Err? <==> LinkErrors(store, data, auth) != {}
    ensures r.Err? ==> r.error in LinkErrors(store, data, auth)
    ensures r.Ok? ==> r.value == reached && AfidOrder(auth, order) && LinkIds(links) == Affiliated(data, order)
                      && author.departments == old(author.departments) + Depts(links) && LinksIn(links, reached, View(store, reached))
  {
    reached, links, order := newInsts, [], [];
    ViewSub(store, newInsts, newInsts);
    LinkErrorsCases(store, data, auth);
    var got := Helpers.KeyGet(auth, "afid", true, Arr([]));
    if got.Err? {
      return Err(got.error), reached, links, order;
    }
    match got.value {
      case One(v) =>
        var vals := Iter(v);
        if vals.Err? {
          return Err(vals.error), reached, links, order;
        }
        order := vals.value;
        r, reached, links := LinkEach(store, data, author, vals.value, newInsts);
      case Many(vs) =>
        r, reached, links, order := LinkSet(store, data, author, vs, newInsts);
    }
  }

  /** What the loop reads from an entry besides its id: its position and,
      for a new author, its names. */
  datatype EntryInfo = EntryInfo(no: Result<int>, names: Result<Names>)

  function EntryOf(auth: JsonVal): EntryInfo {
    EntryInfo(AuthorNoOf(auth), NewAuthorNames(auth))
  }

  /** One row of the result for a kept entry of id `id` whose reading is
      `info`: its position number, and the stored author of its id or a new
      author, whose names are `names`. */
  predicate AuthorRow(store: Store, info: EntryInfo, id: int, row: (int, Author), names: Names) {
    row.1.idScp == id && info.no == Ok(row.0)
    && (id in store.authors ==> row.1 == store.authors[id])
    && (id !in store.authors ==> info.names == Ok(names) && NamedAs(row.1, id, names))
  }

  /** The rows for a list of kept entries, given what reading each entry
      gives: row `j` is `AuthorRow` of `kept[j]`. */
  predicate Rows(store: Store, infos: seq<EntryInfo>, kept: seq<(nat, int)>, rows: seq<(int, Author)>, names: seq<Names>)
    decreases |kept|
  {
    |rows| == |kept| && |names| == |kept|
    && (kept == []
        || (Rows(store, infos, kept[..|kept| - 1], rows[..|kept| - 1], names[..|kept| - 1])
            && kept[|kept| - 1].0 < |infos|
            && AuthorRow(store, infos[kept[|kept| - 1].0], kept[|kept| - 1].1, rows[|kept| - 1], names[|kept| - 1])))
  }

  /** The row of a kept entry `auth` of id `id`, as the result states it:
      the position read from the entry; the stored author of that id, or a
      new author with the entry's names and its Scopus profile. */
  predicate EntryRow(store: Store, auth: JsonVal, id: int, row: (int, Author))
    reads row.1
  {
    row.1.idScp == id && AuthorNoOf(auth) == Ok(row.0)
    && (id in store.authors ==> row.1 == store.authors[id])
    && (id !in store.authors ==> NewAuthorNames(auth).Ok? && IsNewAuthor(row.1, id, NewAuthorNames(auth).value))
  }

  lemma RowsAppend(store: Store, infos: seq<EntryInfo>, kept: seq<(nat, int)>, rows: seq<(int, Author)>, names: seq<Names>,
                   k: (nat, int), row: (int, Author), nm: Names)
    requires Rows(store, infos, kept, rows, names) && k.0 < |infos| && AuthorRow(store, infos[k.0], k.1, row, nm)
    ensures Rows(store, infos, kept + [k], rows + [row], names + [nm])
  {
    assert (kept + [k])[..|kept|] == kept;
    assert (rows + [row])[..|kept|] == rows;
    assert (names + [nm])[..|kept|] == names;
  }

  lemma {:induction false} RowsEach(store: Store, infos: seq<EntryInfo>, kept: seq<(nat, int)>, rows: seq<(int, Author)>, names: seq<Names>)
    decreases |kept|
    ensures Rows(store, infos, kept, rows, names) <==>
              |rows| == |kept| && |names| == |kept|
              && forall j :: 0 <= j < |kept| ==> kept[j].0 < |infos| && AuthorRow(store, infos[kept[j].0], kept[j].1, rows[j], names[j])
  {
    if kept != [] && |rows| == |kept| && |names| == |kept| {
      var n := |kept| - 1;
      RowsEach(store, infos, kept[..n], rows[..n], names[..n]);
      assert forall j :: 0 <= j < n ==> kept[..n][j] == kept[j] && rows[..n][j] == rows[j] && names[..n][j] == names[j];
    }
  }

  /** An author whose id the store lacks is none of the stored authors. */
  lemma NotStored(store: Store, a: Author)
    requires Consistent(store)
    ensures a.idScp !in store.authors ==> a !in store.authors.Values
  {
    if a.idScp !in store.authors {
      forall k | k in store.authors ensures store.authors[k] != a { }
    }
  }

  /** The stored author of `id`, if any: the only stored author a turn
      of the loop of `author_process` for that id may change. */
  function Own(store: Store, id: int): set<Author> {
    if id in store.authors then {store.authors[id]} else {}
  }

  /** The stored author a turn of the outer loop may change, that of the
      id read if any, is among those of the ids read. */
  lemma TurnedIn(store: Store, ids: seq<Result<Option<int>>>, i: nat)
    requires i < |ids|
    ensures (if ids[i].Ok? && ids[i].value.Some? then Own(store, ids[i].value.value) else {}) <= Touched(store, ReadIds(ids))
  {
    ReadIdsStep(ids, i);
    ReadIdsPrefix(ids, i + 1);
  }

  /** An author whose id is not `id` is not the stored author of `id`. */
  lemma NotOwn(store: Store, id: int, a: Author)
    requires Consistent(store) && a.idScp != id
    ensures a !in Own(store, id)
  {}

  /** The stored authors of the ids in `ids`. */
  function Touched(store: Store, ids: set<int>): set<Author> {
    set k | k in store.authors && k in ids :: store.authors[k]
  }

  /** A stored author whose id is not among `ids` is none of theirs. */
  lemma Untouched(store: Store, ids: set<int>, a: Author)
    requires Consistent(store) && a in store.authors.Values && a.idScp !in ids
    ensures a !in Touched(store, ids)
  {
    forall k | k in store.authors && k in ids ensures store.authors[k] != a {
      assert store.authors[k].idScp == k;
    }
  }

  /** The exceptions the outer loop's body can raise for an entry whose id
      `id` is new: reading its position, then, for an id the store lacks,
      its names, then reading and visiting its afid values. */
  function EntryErrors(store: Store, data: Dict, entry: JsonVal, id: int): set<PyError> {
    if AuthorNoOf(entry).Err? then {AuthorNoOf(entry).error}
    else if id !in store.authors && NewAuthorNames(entry).Err? then {NewAuthorNames(entry).error}
    else LinkErrors(store, data, entry)
  }

  lemma EntryErrorsCases(store: Store, data: Dict, entry: JsonVal, id: int)
    ensures AuthorNoOf(entry).Err? ==> EntryErrors(store, data, entry, id) == {AuthorNoOf(entry).error}
    ensures AuthorNoOf(entry).Ok? && id !in store.authors && NewAuthorNames(entry).Err? ==>
              EntryErrors(store, data, entry, id) == {NewAuthorNames(entry).error}
    ensures AuthorNoOf(entry).Ok? && (id in store.authors || NewAuthorNames(entry).Ok?) ==>
              EntryErrors(store, data, entry, id) == LinkErrors(store, data, entry)
  {
  }

  /** The exceptions one turn of the outer loop can raise for an entry
      whose id reads as `a`, the ids `seen` being kept already: the id's
      own, none for an entry skipped, or those of a new id. */
  function StepErrors(store: Store, data: Dict, entry: JsonVal, a: Result<Option<int>>, seen: seq<int>): set<PyError> {
    match a
    case Err(e) => {e}
    case Ok(id) => if id.None? || id.value in seen then {} else EntryErrors(store, data, entry, id.value)
  }

  /** The exceptions the outer loop can raise over the first `n` entries,
      whose ids read as `ids`: those of the first turn that can raise. */
  function ErrorsUpTo(store: Store, data: Dict, entries: seq<JsonVal>, ids: seq<Result<Option<int>>>, n: nat): set<PyError>
    requires n <= |entries| && n <= |ids|
  {
    if n == 0 then {}
    else
      var prev := ErrorsUpTo(store, data, entries, ids, n - 1);
      if prev != {} then prev else StepErrors(store, data, entries[n - 1], ids[n - 1], IdsOf(Kept(ids[..n - 1])))
  }

  /** Once a turn has raised, the later entries are never visited. */
  lemma {:induction false} ErrorsStay(store: Store, data: Dict, entries: seq<JsonVal>, ids: seq<Result<Option<int>>>, n: nat, m: nat)
    requires n <= m <= |entries| && m <= |ids| && ErrorsUpTo(store, data, entries, ids, n) != {}
    decreases m
    ensures ErrorsUpTo(store, data, entries, ids, m) == ErrorsUpTo(store, data, entries, ids, n)
  {
    if n < m {
      ErrorsStay(store, data, entries, ids, n, m - 1);
    }
  }

  /** A turn after turns that raised nothing raises what its entry can. */
  lemma ErrorsStep(store: Store, data: Dict, entries: seq<JsonVal>, ids: seq<Result<Option<int>>>, i: nat, seen: seq<int>)
    requires i < |entries| && i < |ids| && ErrorsUpTo(store, data, entries, ids, i) == {} && seen == IdsOf(Kept(ids[..i]))
    ensures ErrorsUpTo(store, data, entries, ids, i + 1) == StepErrors(store, data, entries[i], ids[i], seen)
  {
  }

  /** The exceptions `author_process` can raise for a record: reading its
      author entries, then those of the loop over them. */
  function RecordErrors(store: Store, data: Dict): set<PyError> {
    match ListField(data, "author")
    case Err(e) => {e}
    case Ok(entries) => ErrorsUpTo(store, data, entries, IdResults(entries), |entries|)
  }

  /** The body of the outer loop for an entry whose id is new: its
      position, its author, and the links to its affiliations. Only the
      author of that id, and the institutions it links, can change. */
  method ProcessEntry(store: Store, data: Dict, entry: JsonVal, ghost info: EntryInfo, id: int, insts: set<Institution>)
    returns (r: Result<((int, Author), set<Institution>)>, ghost names: Names, ghost reached: set<Institution>,
             ghost links: seq<Link>, ghost order: seq<JsonVal>)
    requires info == EntryOf(entry) && Consistent(store) && Ready(store, insts) && Made(store, data, insts)
    modifies store.institutions.Values, Own(store, id)
    ensures r.Err? <==> EntryErrors(store, data, entry, id) != {}
    ensures r.Err? ==> r.error in EntryErrors(store, data, entry, id)
    ensures r.Ok? ==> AuthorRow(store, info, id, r.value.0, names) && r.value.1 == reached
                      && (id !in store.authors ==> fresh(r.value.0.1) && r.value.0.1.profiles == [ScopusProfile(id)])
    ensures r.Ok? ==> AfidOrder(entry, order) && LinkIds(links) == Affiliated(data, order)
                      && LinksIn(links, reached, View(store, reached))
                      && r.value.0.1.departments
                         == (if id in store.authors then old(store.authors[id].departments) else []) + Depts(links)
    ensures insts <= reached && Ready(store, reached) && Made(store, data, reached)
    ensures Same(old(View(store, insts)), View(store, reached), reached - insts)
    ensures id in store.authors ==> store.authors[id].profiles == old(store.authors[id].profiles)
  {
    names, reached, links, order := Names(Null, Null, Null), insts, [], [];
    ViewSub(store, insts, insts);
    EntryErrorsCases(store, data, entry, id);
    var no := AuthorNoOf(entry);
    if no.Err? {
      r := Err(no.error);
    } else {
      var author := FindOrCreateAuthor(store, entry, id);
      assert View(store, insts) == old(View(store, insts));
      if author.Err? {
        r := Err(author.error);
      } else {
        if id !in store.authors {
          names := NewAuthorNames(entry).value;
        }
        r, reached, links, order := LinkAuthor(store, data, entry, no.value, author.value, insts);
      }
    }
  }

  /** The rest of the outer loop's body once the entry's position `no` is
      read and its author found or created: the links to its affiliations. */
  method LinkAuthor(store: Store, data: Dict, entry: JsonVal, no: int, author: Author, insts: set<Institution>)
    returns (r: Result<((int, Author), set<Institution>)>, ghost reached: set<Institution>,
             ghost links: seq<Link>, ghost order: seq<JsonVal>)
    requires Consistent(store) && Ready(store, insts) && Made(store, data, insts)
    modifies store.institutions.Values, author`departments
    ensures r.Err? <==> LinkErrors(store, data, entry) != {}
    ensures r.Err? ==> r.error in LinkErrors(store, data, entry)
    ensures r.Ok? ==> r.value == ((no, author), reached)
                      && AfidOrder(entry, order) && LinkIds(links) == Affiliated(data, order)
                      && LinksIn(links, reached, View(store, reached))
                      && author.departments == old(author.departments) + Depts(links)
    ensures author.profiles == old(author.profiles)
    ensures insts <= reached && Ready(store, reached) && Made(store, data, reached)
    ensures Same(old(View(store, insts)), View(store, reached), reached - insts)
  {
    var next;
    next, reached, links, order := LinkAffiliations(store, data, entry, author, insts);
    if next.Err? {
      r := Err(next.error);
    } else {
      r := Ok(((no, author), next.value));
    }
  }

  /** What reading each entry gives besides its id. */
  function Infos(entries: seq<JsonVal>): seq<EntryInfo> {
    seq(|entries|, p requires 0 <= p < |entries| => EntryOf(entries[p]))
  }

  /** How far the loop of `author_process` has got after `i` entries:
      the kept entries so far, their ids, and one row for each. */
  predicate Progress(store: Store, ids: seq<Result<Option<int>>>, infos: seq<EntryInfo>, i: nat,
                     kept: seq<(nat, int)>, authorIds: seq<int>, authors: seq<(int, Author)>, names: seq<Names>) {
    i <= |ids| && kept == Kept(ids[..i]) && authorIds == IdsOf(kept) && AllRead(ids[..i])
    && Rows(store, infos, kept, authors, names)
  }

  lemma KeptStep(ids: seq<Result<Option<int>>>, i: nat)
    requires i < |ids|
    ensures var prev := Kept(ids[..i]);
            var a := ids[i];
            Kept(ids[..i + 1]) ==
              if a.Ok? && a.value.Some? && a.value.value !in IdsOf(prev) then prev + [(i, a.value.value)] else prev
    ensures AllRead(ids[..i + 1]) <==> AllRead(ids[..i]) && ids[i].Ok?
  {
    assert ids[..i + 1] == ids[..i] + [ids[i]];
    assert ids[..i + 1][..i] == ids[..i];
    KeptAppend(ids[..i], ids[i]);
  }

  /** An entry without an id, or with an id already kept, changes nothing. */
  lemma ProgressSkip(store: Store, ids: seq<Result<Option<int>>>, infos: seq<EntryInfo>, i: nat,
                     kept: seq<(nat, int)>, authorIds: seq<int>, authors: seq<(int, Author)>, names: seq<Names>)
    requires Progress(store, ids, infos, i, kept, authorIds, authors, names) && i < |ids| && ids[i].Ok?
    requires ids[i].value.None? || ids[i].value.value in authorIds
    ensures Progress(store, ids, infos, i + 1, kept, authorIds, authors, names)
  {
    KeptStep(ids, i);
  }

  /** An entry with a new id adds its row. */
  lemma ProgressAdd(store: Store, ids: seq<Result<Option<int>>>, infos: seq<EntryInfo>, i: nat,
                    kept: seq<(nat, int)>, authorIds: seq<int>, authors: seq<(int, Author)>, names: seq<Names>,
                    id: int, row: (int, Author), nm: Names)
    requires Progress(store, ids, infos, i, kept, authorIds, authors, names) && i < |ids| && i < |infos|
    requires ids[i] == Ok(Some(id)) && id !in authorIds && AuthorRow(store, infos[i], id, row, nm)
    ensures Progress(store, ids, infos, i + 1, kept + [(i, id)], authorIds + [id], authors + [row], names + [nm])
  {
    KeptStep(ids, i);
    IdsOfAppend(kept, (i, id));
    RowsAppend(store, infos, kept, authors, names, (i, id), row, nm);
  }


  /** The ids read without error from the entries. */
  function ReadIds(ids: seq<Result<Option<int>>>): set<int>
    decreases |ids|
  {
    if ids == [] then {}
    else
      var last := ids[|ids| - 1];
      ReadIds(ids[..|ids| - 1]) + (if last.Ok? && last.value.Some? then {last.value.value} else {})
  }

  lemma ReadIdsStep(ids: seq<Result<Option<int>>>, i: nat)
    requires i < |ids|
    ensures ReadIds(ids[..i + 1]) == ReadIds(ids[..i]) + (if ids[i].Ok? && ids[i].value.Some? then {ids[i].value.value} else {})
  {
    assert ids[..i + 1][..i] == ids[..i];
  }

  lemma {:induction false} ReadIdsPrefix(ids: seq<Result<Option<int>>>, i: nat)
    requires i <= |ids|
    decreases |ids|
    ensures ReadIds(ids[..i]) <= ReadIds(ids)
  {
    if i < |ids| {
      var init := ids[..|ids| - 1];
      ReadIdsPrefix(init, i);
      assert init[..i] == ids[..i];
    } else {
      assert ids[..i] == ids;
    }
  }

  /** The ids of the kept entries are exactly the ids read. */
  lemma {:induction false} KeptReadIds(ids: seq<Result<Option<int>>>)
    decreases |ids|
    ensures forall n :: n in IdsOf(Kept(ids)) <==> n in ReadIds(ids)
  {
    if ids != [] {
      var init := ids[..|ids| - 1];
      var a := ids[|ids| - 1];
      assert ids == init + [a];
      KeptReadIds(init);
      KeptAppend(init, a);
      var prev := Kept(init);
      if a.Ok? && a.value.Some? && a.value.value !in IdsOf(prev) {
        IdsOfAppend(prev, (|init|, a.value.value));
      }
    }
  }


  /** What `author_process` can change in an author. */
  datatype AuthorState = AuthorState(departments: seq<Department>, profiles: seq<AuthorProfile>)

  ghost function StateOf(a: Author): AuthorState
    reads a
  {
    AuthorState(a.departments, a.profiles)
  }

  /** The state of each row's author. */
  ghost function RowStates(rows: seq<(int, Author)>): (r: seq<AuthorState>)
    reads set j | 0 <= j < |rows| :: rows[j].1
    ensures |r| == |rows| && forall j :: 0 <= j < |rows| ==> r[j] == StateOf(rows[j].1)
  {
    seq(|rows|, j requires 0 <= j < |rows| reads (set m | 0 <= m < |rows| :: rows[m].1) => StateOf(rows[j].1))
  }

  lemma RowStatesAppend(rows: seq<(int, Author)>, row: (int, Author))
    ensures RowStates(rows + [row]) == RowStates(rows) + [StateOf(row.1)]
  {
    assert forall j :: 0 <= j < |rows| ==> (rows + [row])[j] == rows[j];
  }

  /** The state of each stored author, by id. */
  ghost function StoredStates(store: Store): (r: map<int, AuthorState>)
    reads store.authors.Values
    ensures r.Keys == store.authors.Keys
  {
    map k | k in store.authors :: StateOf(store.authors[k])
  }

  /** An author's departments before the call, given the stored authors'
      states then: the stored author's, or none for a new one. */
  function Prior(ss: map<int, AuthorState>, id: int): seq<Department> {
    if id in ss then ss[id].departments else []
  }

  /** The row of kept entry `k`, with its author in state `s`: the
      entry's afid values were visited in the order `order`, one link was
      made per value whose affiliation the record lists, each to an
      institution of `insts` in state `st`; the author's departments are
      those it had when the call began (`ss0`) followed by the links'
      departments; a new author is none of the stored ones and has exactly
      its Scopus profile. */
  ghost predicate RowLinked(store: Store, data: Dict, entries: seq<JsonVal>, k: (nat, int), row: (int, Author), s: AuthorState,
                            l: seq<Link>, order: seq<JsonVal>, insts: set<Institution>, st: map<Institution, InstState>,
                            ss0: map<int, AuthorState>) {
    k.0 < |entries| && AfidOrder(entries[k.0], order) && LinkIds(l) == Affiliated(data, order)
    && LinksIn(l, insts, st) && s.departments == Prior(ss0, k.1) + Depts(l)
    && (k.1 !in store.authors ==> row.1 !in store.authors.Values && s.profiles == [ScopusProfile(k.1)])
  }

  /** How far the loop of `author_process` has got after `i` entries, as
      values: the rows so far (`Progress`), each linked, its author in
      state `rs[j]`; the institutions used so far, in state `st`, shaped,
      one per id, and the only ones changed since the call began (in state
      `st0`); the stored authors in states `ss`, with the profiles they had
      when the call began (`ss0`), and as they were if not yet visited. */
  ghost predicate Outer(store: Store, data: Dict, entries: seq<JsonVal>, ids: seq<Result<Option<int>>>, infos: seq<EntryInfo>,
                        i: nat, kept: seq<(nat, int)>, authorIds: seq<int>, authors: seq<(int, Author)>, names: seq<Names>,
                        links: seq<seq<Link>>, orders: seq<seq<JsonVal>>, rs: seq<AuthorState>,
                        insts: set<Institution>, st0: map<Institution, InstState>, st: map<Institution, InstState>,
                        ss0: map<int, AuthorState>, ss: map<int, AuthorState>) {
    Progress(store, ids, infos, i, kept, authorIds, authors, names)
    && i <= |entries| && ErrorsUpTo(store, data, entries, ids, i) == {}
    && |kept| == |authors| && |links| == |authors| && |orders| == |authors| && |rs| == |authors|
    && NewInstsOk(store, insts) && Made(store, data, insts) && Shaped(store, insts, st) && Same(st0, st, insts)
    && ss.Keys == ss0.Keys
    && (forall k | k in ss0 :: ss[k].profiles == ss0[k].profiles && (k !in authorIds ==> ss[k] == ss0[k]))
    && forall j :: 0 <= j < |authors| ==>
         RowLinked(store, data, entries, kept[j], authors[j], rs[j], links[j], orders[j], insts, st, ss0)
  }

  /** `ProcessEntry` seen from the loop: the authors of the rows so far,
      whose ids differ from `id`, and the stored authors of other ids keep
      their state. */
  method TakeEntry(store: Store, data: Dict, entry: JsonVal, ghost info: EntryInfo, id: int, insts: set<Institution>,
                   ghost authors: seq<(int, Author)>)
    returns (r: Result<((int, Author), set<Institution>)>, ghost names: Names, ghost reached: set<Institution>,
             ghost links: seq<Link>, ghost order: seq<JsonVal>)
    requires info == EntryOf(entry) && Consistent(store) && Ready(store, insts) && Made(store, data, insts)
    requires forall j | 0 <= j < |authors| :: authors[j].1.idScp != id
    modifies store.institutions.Values, Own(store, id)
    ensures r.Err? <==> EntryErrors(store, data, entry, id) != {}
    ensures r.Err? ==> r.error in EntryErrors(store, data, entry, id)
    ensures RowStates(authors) == old(RowStates(authors))
    ensures StoredStates(store).Keys == old(StoredStates(store)).Keys
    ensures forall k | k in old(StoredStates(store)) ::
              StoredStates(store)[k].profiles == old(StoredStates(store))[k].profiles
              && (k != id ==> StoredStates(store)[k] == old(StoredStates(store))[k])
    ensures r.Ok? ==> AuthorRow(store, info, id, r.value.0, names) && r.value.1 == reached
                      && StateOf(r.value.0.1).departments == Prior(old(StoredStates(store)), id) + Depts(links)
                      && (id !in store.authors ==>
                            r.value.0.1 !in store.authors.Values && StateOf(r.value.0.1).profiles == [ScopusProfile(id)])
                      && AfidOrder(entry, order) && LinkIds(links) == Affiliated(data, order)
                      && LinksIn(links, reached, View(store, reached))
    ensures insts <= reached && Ready(store, reached) && Made(store, data, reached)
    ensures Same(old(View(store, insts)), View(store, reached), reached - insts)
  {
    ghost var rs0, ss0 := RowStates(authors), StoredStates(store);
    r, names, reached, links, order := ProcessEntry(store, data, entry, info, id, insts);
    forall j | 0 <= j < |authors| ensures StateOf(authors[j].1) == rs0[j] {
      NotOwn(store, id, authors[j].1);
    }
    RowStatesAre(authors, rs0);
    forall k | k in store.authors && k != id ensures StateOf(store.authors[k]) == ss0[k] {
      NotOwn(store, id, store.authors[k]);
    }
    StoredStatesAre(store, id, ss0);
    if r.Ok? {
      NotStored(store, r.value.0.1);
    }
  }

  /** The rows' authors' states, read one by one. */
  lemma RowStatesAre(rows: seq<(int, Author)>, rs: seq<AuthorState>)
    requires |rs| == |rows| && forall j | 0 <= j < |rows| :: StateOf(rows[j].1) == rs[j]
    ensures RowStates(rows) == rs
  {
  }

  /** The stored authors' states, when every stored author but that of
      `id` is in the state `ss` gives, and that one keeps its profiles. */
  lemma StoredStatesAre(store: Store, id: int, ss: map<int, AuthorState>)
    requires ss.Keys == store.authors.Keys
    requires forall k | k in store.authors && k != id :: StateOf(store.authors[k]) == ss[k]
    requires id in store.authors ==> store.authors[id].profiles == ss[id].profiles
    ensures StoredStates(store).Keys == ss.Keys
    ensures forall k | k in ss :: StoredStates(store)[k].profiles == ss[k].profiles && (k != id ==> StoredStates(store)[k] == ss[k])
  {
  }

  /** The rows so far are of authors whose ids differ from an id not yet kept. */
  lemma OuterApart(store: Store, ids: seq<Result<Option<int>>>, infos: seq<EntryInfo>, i: nat,
                   kept: seq<(nat, int)>, authorIds: seq<int>, authors: seq<(int, Author)>, names: seq<Names>, id: int)
    requires Progress(store, ids, infos, i, kept, authorIds, authors, names) && id !in authorIds
    ensures forall j | 0 <= j < |authors| :: authors[j].1.idScp != id
  {
    RowsEach(store, infos, kept, authors, names);
    forall j | 0 <= j < |authors| ensures authors[j].1.idScp != id {
      assert AuthorRow(store, infos[kept[j].0], kept[j].1, authors[j], names[j]);
      assert authorIds[j] == kept[j].1;
    }
  }

  /** An entry whose id is new adds its row, linked. */
  lemma OuterAdd(store: Store, data: Dict, entries: seq<JsonVal>, ids: seq<Result<Option<int>>>, infos: seq<EntryInfo>,
                 i: nat, kept: seq<(nat, int)>, authorIds: seq<int>, authors: seq<(int, Author)>, names: seq<Names>,
                 links: seq<seq<Link>>, orders: seq<seq<JsonVal>>, rs: seq<AuthorState>,
                 insts: set<Institution>, st0: map<Institution, InstState>, st1: map<Institution, InstState>,
                 ss0: map<int, AuthorState>, ss1: map<int, AuthorState>,
                 id: int, row: (int, Author), nm: Names, s: AuthorState, l: seq<Link>, order: seq<JsonVal>,
                 reached: set<Institution>, st2: map<Institution, InstState>, ss2: map<int, AuthorState>)
    requires Readings(entries, ids, infos) && i < |entries| && ids[i] == Ok(Some(id)) && id !in authorIds
    requires ErrorsUpTo(store, data, entries, ids, i + 1) == {}
    requires Outer(store, data, entries, ids, infos, i, kept, authorIds, authors, names, links, orders, rs,
                   insts, st0, st1, ss0, ss1)
    requires AuthorRow(store, infos[i], id, row, nm)
    requires insts <= reached && NewInstsOk(store, reached) && Made(store, data, reached) && Shaped(store, reached, st2)
    requires Same(st1, st2, reached - insts)
    requires ss2.Keys == ss1.Keys
    requires forall k | k in ss1 :: ss2[k].profiles == ss1[k].profiles && (k != id ==> ss2[k] == ss1[k])
    requires s.departments == Prior(ss1, id) + Depts(l)
    requires id !in store.authors ==> row.1 !in store.authors.Values && s.profiles == [ScopusProfile(id)]
    requires AfidOrder(entries[i], order) && LinkIds(l) == Affiliated(data, order) && LinksIn(l, reached, st2)
    ensures Outer(store, data, entries, ids, infos, i + 1, kept + [(i, id)], authorIds + [id], authors + [row], names + [nm],
                  links + [l], orders + [order], rs + [s], reached, st0, st2, ss0, ss2)
  {
    ProgressAdd(store, ids, infos, i, kept, authorIds, authors, names, id, row, nm);
    SameTrans(st0, st1, st2, insts, reached - insts);
    assert insts + (reached - insts) == reached;
    var kept', authors', links', orders', rs' := kept + [(i, id)], authors + [row], links + [l], orders + [order], rs + [s];
    forall j | 0 <= j < |authors'|
      ensures RowLinked(store, data, entries, kept'[j], authors'[j], rs'[j], links'[j], orders'[j], reached, st2, ss0)
    {
      if j < |authors| {
        assert kept'[j] == kept[j] && authors'[j] == authors[j] && rs'[j] == rs[j] && links'[j] == links[j] && orders'[j] == orders[j];
        assert RowLinked(store, data, entries, kept[j], authors[j], rs[j], links[j], orders[j], insts, st1, ss0);
        LinksInGrow(links[j], insts, reached, st1, st2);
      } else {
        assert Prior(ss1, id) == Prior(ss0, id);
      }
    }
  }

  /** What reading each entry gives: its id, and its position and names. */
  predicate Readings(entries: seq<JsonVal>, ids: seq<Result<Option<int>>>, infos: seq<EntryInfo>) {
    |ids| == |entries| && |infos| == |entries|
    && (forall p {:trigger AuthorIdOf(entries[p])} :: 0 <= p < |entries| ==> ids[p] == AuthorIdOf(entries[p]))
    && (forall p {:trigger EntryOf(entries[p])} :: 0 <= p < |entries| ==> infos[p] == EntryOf(entries[p]))
  }

  /** What a failed call leaves: the institutions `insts` reached, shaped
      and one per id, are the only ones changed since the call began (in
      state `st0`); the stored authors (in states `ss0` then) keep their
      profiles. */
  ghost predicate Settled(store: Store, insts: set<Institution>, st0: map<Institution, InstState>, st: map<Institution, InstState>,
                          ss0: map<int, AuthorState>, ss: map<int, AuthorState>) {
    NewInstsOk(store, insts) && Shaped(store, insts, st) && Same(st0, st, insts)
    && ss.Keys == ss0.Keys && forall k | k in ss0 :: ss[k].profiles == ss0[k].profiles
  }

  /** An entry whose processing fails still leaves only the institutions
      reached changed and every stored author's profiles as they were. */
  lemma KeepOnError(st0: map<Institution, InstState>, st1: map<Institution, InstState>, st2: map<Institution, InstState>,
                    insts: set<Institution>, reached: set<Institution>,
                    ss0: map<int, AuthorState>, ss1: map<int, AuthorState>, ss2: map<int, AuthorState>)
    requires Same(st0, st1, insts) && Same(st1, st2, reached - insts) && insts <= reached
    requires ss1.Keys == ss0.Keys && forall k | k in ss0 :: ss1[k].profiles == ss0[k].profiles
    requires ss2.Keys == ss1.Keys && forall k | k in ss1 :: ss2[k].profiles == ss1[k].profiles
    ensures Same(st0, st2, reached) && ss2.Keys == ss0.Keys
    ensures forall k | k in ss0 :: ss2[k].profiles == ss0[k].profiles
  {
    SameTrans(st0, st1, st2, insts, reached - insts);
    assert insts + (reached - insts) == reached;
  }

  /** A turn of the loop of `author_process` for an entry whose id is new:
      its row is added, with its links. */
  method AddEntry(store: Store, data: Dict, entries: seq<JsonVal>, ghost ids: seq<Result<Option<int>>>, ghost infos: seq<EntryInfo>,
                  i: nat, id: int, authorIds: seq<int>, authors: seq<(int, Author)>, insts: set<Institution>,
                  ghost kept: seq<(nat, int)>, ghost names: seq<Names>, ghost links: seq<seq<Link>>, ghost orders: seq<seq<JsonVal>>,
                  ghost rs: seq<AuthorState>, ghost st0: map<Institution, InstState>, ghost ss0: map<int, AuthorState>)
    returns (r: Result<(seq<int>, seq<(int, Author)>, set<Institution>)>, ghost kept': seq<(nat, int)>, ghost names': seq<Names>,
             ghost reached: set<Institution>, ghost links': seq<seq<Link>>, ghost orders': seq<seq<JsonVal>>,
             ghost rs': seq<AuthorState>)
    requires Readings(entries, ids, infos) && i < |entries| && Consistent(store) && ids[i] == Ok(Some(id)) && id !in authorIds
    requires Outer(store, data, entries, ids, infos, i, kept, authorIds, authors, names, links, orders, rs,
                   insts, st0, View(store, insts), ss0, StoredStates(store))
    requires rs == RowStates(authors)
    modifies store.institutions.Values, Own(store, id)
    ensures r.Err? <==> EntryErrors(store, data, entries[i], id) != {}
    ensures r.Err? ==> r.error in EntryErrors(store, data, entries[i], id)
    ensures r.Ok? ==> r.value.2 == reached && rs' == RowStates(r.value.1)
                      && Outer(store, data, entries, ids, infos, i + 1, kept', r.value.0, r.value.1, names', links', orders', rs',
                               reached, st0, View(store, reached), ss0, StoredStates(store))
    ensures r.Err? ==> Settled(store, reached, st0, View(store, reached), ss0, StoredStates(store))
  {
    kept', names', links', orders', rs' := kept, names, links, orders, rs;
    ghost var st1, ss1 := View(store, insts), StoredStates(store);
    OuterApart(store, ids, infos, i, kept, authorIds, authors, names, id);
    ErrorsStep(store, data, entries, ids, i, authorIds);
    var step;
    ghost var nm, l, order;
    step, nm, reached, l, order := TakeEntry(store, data, entries[i], infos[i], id, insts, authors);
    if step.Err? {
      r := Err(step.error);
      KeepOnError(st0, st1, View(store, reached), insts, reached, ss0, ss1, StoredStates(store));
    } else {
      var row := step.value.0;
      RowStatesAppend(authors, row);
      OuterAdd(store, data, entries, ids, infos, i, kept, authorIds, authors, names, links, orders, rs,
               insts, st0, st1, ss0, ss1, id, row, nm, StateOf(row.1), l, order, reached, View(store, reached), StoredStates(store));
      kept', names', links', orders', rs' := kept + [(i, id)], names + [nm], links + [l], orders + [order], rs + [StateOf(row.1)];
      r := Ok((authorIds + [id], authors + [row], step.value.1));
    }
  }

  /** One turn of the loop of `author_process`: read the entry's id; skip
      it when it has none or was seen; otherwise add its row. Only the
      stored author of the id read can change. */
  method Visit(store: Store, data: Dict, entries: seq<JsonVal>, ghost ids: seq<Result<Option<int>>>, ghost infos: seq<EntryInfo>,
               i: nat, authorIds: seq<int>, authors: seq<(int, Author)>, insts: set<Institution>,
               ghost kept: seq<(nat, int)>, ghost names: seq<Names>, ghost links: seq<seq<Link>>, ghost orders: seq<seq<JsonVal>>,
               ghost rs: seq<AuthorState>, ghost st0: map<Institution, InstState>, ghost ss0: map<int, AuthorState>)
    returns (r: Result<(seq<int>, seq<(int, Author)>, set<Institution>)>, ghost kept': seq<(nat, int)>, ghost names': seq<Names>,
             ghost reached: set<Institution>, ghost links': seq<seq<Link>>, ghost orders': seq<seq<JsonVal>>,
             ghost rs': seq<AuthorState>)
    requires Readings(entries, ids, infos) && i < |entries| && Consistent(store)
    requires Outer(store, data, entries, ids, infos, i, kept, authorIds, authors, names, links, orders, rs,
                   insts, st0, View(store, insts), ss0, StoredStates(store))
    requires rs == RowStates(authors)
    modifies store.institutions.Values, if ids[i].Ok? && ids[i].value.Some? then Own(store, ids[i].value.value) else {}
    ensures r.Err? <==> StepErrors(store, data, entries[i], ids[i], authorIds) != {}
    ensures r.Err? ==> r.error in StepErrors(store, data, entries[i], ids[i], authorIds)
                       && r.error in ErrorsUpTo(store, data, entries, ids, |entries|)
    ensures r.Ok? ==> r.value.2 == reached && rs' == RowStates(r.value.1)
                      && Outer(store, data, entries, ids, infos, i + 1, kept', r.value.0, r.value.1, names', links', orders', rs',
                               reached, st0, View(store, reached), ss0, StoredStates(store))
    ensures r.Err? ==> Settled(store, reached, st0, View(store, reached), ss0, StoredStates(store))
  {
    ErrorsStep(store, data, entries, ids, i, authorIds);
    var a := AuthorIdOf(entries[i]);
    if a.Err? {
      kept', names', reached, links', orders', rs' := kept, names, insts, links, orders, rs;
      r := Err(a.error);
    } else if a.value.None? || a.value.value in authorIds {
      kept', names', reached, links', orders', rs' := kept, names, insts, links, orders, rs;
      ProgressSkip(store, ids, infos, i, kept, authorIds, authors, names);
      r := Ok((authorIds, authors, insts));
    } else {
      r, kept', names', reached, links', orders', rs' :=
        AddEntry(store, data, entries, ids, infos, i, a.value.value, authorIds, authors, insts, kept, names, links, orders, rs, st0, ss0);
    }
    if r.Err? {
      ErrorsStay(store, data, entries, ids, i + 1, |entries|);
    }
  }

  /** The loop of `author_process` over the author entries: one row per
      kept entry, a new author for an id the store lacks, each linked to
      the institutions of its affiliations. */
  method ProcessEntries(store: Store, data: Dict, entries: seq<JsonVal>, ghost ids: seq<Result<Option<int>>>, ghost infos: seq<EntryInfo>)
    returns (r: Result<seq<(int, Author)>>, ghost kept: seq<(nat, int)>, ghost names: seq<Names>, ghost newInsts: set<Institution>,
             ghost links: seq<seq<Link>>, ghost orders: seq<seq<JsonVal>>, ghost rs: seq<AuthorState>)
    requires Consistent(store) && Readings(entries, ids, infos)
    modifies store.institutions.Values, Touched(store, ReadIds(ids))
    ensures r.Err? <==> ErrorsUpTo(store, data, entries, ids, |entries|) != {}
    ensures r.Err? ==> r.error in ErrorsUpTo(store, data, entries, ids, |entries|)
    ensures r.Ok? ==> kept == Kept(ids) && rs == RowStates(r.value)
                      && Outer(store, data, entries, ids, infos, |entries|, kept, IdsOf(kept), r.value, names, links, orders, rs,
                               newInsts, old(View(store, {})), View(store, newInsts), old(StoredStates(store)), StoredStates(store))
    ensures r.Err? ==> Settled(store, newInsts, old(View(store, {})), View(store, newInsts), old(StoredStates(store)), StoredStates(store))
  {
    var insts: set<Institution> := {};
    var authorIds: seq<int> := [];
    var authors: seq<(int, Author)> := [];
    kept, names, links, orders, rs := [], [], [], [], [];
    ViewSub(store, {}, {});
    for i := 0 to |entries|
      invariant rs == RowStates(authors)
      invariant Outer(store, data, entries, ids, infos, i, kept, authorIds, authors, names, links, orders, rs,
                      insts, old(View(store, {})), View(store, insts), old(StoredStates(store)), StoredStates(store))
    {
      var step;
      ghost var kept', names', reached, links', orders', rs';
      TurnedIn(store, ids, i);
      step, kept', names', reached, links', orders', rs' :=
        Visit(store, data, entries, ids, infos, i, authorIds, authors, insts, kept, names, links, orders, rs,
              old(View(store, {})), old(StoredStates(store)));
      if step.Err? {
        return Err(step.error), kept, names, reached, links, orders, rs;
      }
      authorIds, authors, insts := step.value.0, step.value.1, step.value.2;
      kept, names, links, orders, rs := kept', names', links', orders', rs';
    }
    WholePrefix(ids);
    return Ok(authors), kept, names, insts, links, orders, rs;
  }

  /** The prefix of a sequence up to its length is the sequence. */
  lemma WholePrefix<T>(s: seq<T>)
    ensures s[..|s|] == s
  {}

  /** No author occurs twice among the rows. */
  predicate DistinctAuthors(rows: seq<(int, Author)>) {
    forall j, l :: 0 <= j < l < |rows| ==> rows[j].1.idScp != rows[l].1.idScp
  }

  /** One row per kept entry carries that entry's id, so the rows are no
      more than the entries and name pairwise distinct authors. */
  lemma KeptRows(ids: seq<Result<Option<int>>>, kept: seq<(nat, int)>, rows: seq<(int, Author)>)
    requires kept == Kept(ids) && |rows| == |kept|
    requires forall j :: 0 <= j < |kept| ==> rows[j].1.idScp == kept[j].1
    ensures |rows| <= |ids| && DistinctAuthors(rows)
  {
    KeptShape(ids);
  }


  /** The rows `author_process` returns for the author entries `entries`,
      with the links made for them (visiting afid values in the orders
      `orders`) to the institutions `insts`, in state `st`, and the
      stored authors' states `ss0` when the call began: every entry's id
      reads; one row per kept entry, of pairwise distinct authors; each
      row is its entry's row, a new author being none of the stored ones;
      one link per afid value whose affiliation the record lists; and the
      author's departments are those it had followed by the links'
      departments. */
  ghost predicate Built(store: Store, data: Dict, entries: seq<JsonVal>, rows: seq<(int, Author)>, links: seq<seq<Link>>,
                        orders: seq<seq<JsonVal>>, insts: set<Institution>, st: map<Institution, InstState>,
                        ss0: map<int, AuthorState>)
    reads set j | 0 <= j < |rows| :: rows[j].1
  {
    var ids := IdResults(entries);
    var kept := Kept(ids);
    AllRead(ids) && |rows| == |kept| && |links| == |rows| && |orders| == |rows|
    && |rows| <= |entries| && DistinctAuthors(rows)
    && forall j :: 0 <= j < |kept| ==>
         kept[j].0 < |entries| && EntryRow(store, entries[kept[j].0], kept[j].1, rows[j])
         && (kept[j].1 !in store.authors ==> rows[j].1 !in store.authors.Values)
         && AfidOrder(entries[kept[j].0], orders[j]) && LinkIds(links[j]) == Affiliated(data, orders[j])
         && LinksIn(links[j], insts, st)
         && rows[j].1.departments == Prior(ss0, kept[j].1) + Depts(links[j])
  }

  /** What the loop has built once every entry is visited, read back as
      the rows of the entries: each kept entry's row, its links and its
      departments. */
  lemma FinalRows(store: Store, data: Dict, entries: seq<JsonVal>, ids: seq<Result<Option<int>>>, infos: seq<EntryInfo>,
                  kept: seq<(nat, int)>, rows: seq<(int, Author)>, names: seq<Names>, links: seq<seq<Link>>,
                  orders: seq<seq<JsonVal>>, rs: seq<AuthorState>, newInsts: set<Institution>,
                  st0: map<Institution, InstState>, st: map<Institution, InstState>, ss0: map<int, AuthorState>, ss: map<int, AuthorState>)
    requires Readings(entries, ids, infos) && ids == IdResults(entries) && kept == Kept(ids) && rs == RowStates(rows)
    requires Outer(store, data, entries, ids, infos, |entries|, kept, IdsOf(kept), rows, names, links, orders, rs,
                   newInsts, st0, st, ss0, ss)
    ensures Built(store, data, entries, rows, links, orders, newInsts, st, ss0)
  {
    assert ids[..|entries|] == ids;
    RowsEach(store, infos, kept, rows, names);
    forall j | 0 <= j < |kept|
      ensures kept[j].0 < |entries| && EntryRow(store, entries[kept[j].0], kept[j].1, rows[j])
      ensures kept[j].1 !in store.authors ==> rows[j].1 !in store.authors.Values
      ensures AfidOrder(entries[kept[j].0], orders[j]) && LinkIds(links[j]) == Affiliated(data, orders[j])
              && LinksIn(links[j], newInsts, st)
              && rows[j].1.departments == Prior(ss0, kept[j].1) + Depts(links[j])
    {
      assert infos[kept[j].0] == EntryOf(entries[kept[j].0]);
      assert RowLinked(store, data, entries, kept[j], rows[j], rs[j], links[j], orders[j], newInsts, st, ss0);
    }
    KeptRows(ids, kept, rows);
  }

  /** The loop of `author_process` over its author entries `entries`,
      stated in terms of the entries: it raises exactly when one of its
      turns can, and then one of that turn's exceptions; otherwise it
      returns the rows `Built` describes. Stored authors keep their
      profiles, and those whose id no entry gives are unchanged; stored
      institutions outside `newInsts` are unchanged. */
  method ProcessList(store: Store, data: Dict, entries: seq<JsonVal>)
    returns (r: Result<seq<(int, Author)>>, ghost newInsts: set<Institution>,
             ghost links: seq<seq<Link>>, ghost orders: seq<seq<JsonVal>>)
    requires Consistent(store)
    modifies store.institutions.Values, store.authors.Values
    ensures r.Err? <==> ErrorsUpTo(store, data, entries, IdResults(entries), |entries|) != {}
    ensures r.Err? ==> r.error in ErrorsUpTo(store, data, entries, IdResults(entries), |entries|)
    ensures r.Ok? ==> Built(store, data, entries, r.value, links, orders, newInsts, View(store, newInsts), old(StoredStates(store)))
    ensures forall k | k in store.authors :: store.authors[k].profiles == old(store.authors[k].profiles)
    ensures forall a | a in store.authors.Values && a.idScp !in ReadIds(IdResults(entries)) :: unchanged(a)
    ensures forall x | x in store.institutions.Values && x !in newInsts ::
              x.country == old(x.country) && x.departments == old(x.departments)
    ensures Ready(store, newInsts)
  {
    ghost var ids, infos := IdResults(entries), Infos(entries);
    ghost var kept, names, rs;
    r, kept, names, newInsts, links, orders, rs := ProcessEntries(store, data, entries, ids, infos);
    forall a | a in store.authors.Values && a.idScp !in ReadIds(ids) ensures unchanged(a) {
      Untouched(store, ReadIds(ids), a);
    }
    forall x | x in store.institutions.Values && x !in newInsts
      ensures x.country == old(x.country) && x.departments == old(x.departments)
    {
      assert View(store, newInsts)[x] == old(View(store, {}))[x];
    }
    forall k | k in store.authors ensures store.authors[k].profiles == old(store.authors[k].profiles) {
      assert StoredStates(store)[k].profiles == old(StoredStates(store))[k].profiles;
    }
    if r.Ok? {
      FinalRows(store, data, entries, ids, infos, kept, r.value, names, links, orders, rs, newInsts,
                old(View(store, {})), View(store, newInsts), old(StoredStates(store)), StoredStates(store));
    }
  }

  /** `author_process(db, data)`: one (position, author) pair per kept
      entry, in entry order. Stored authors keep their profiles; a new
      author is none of the stored ones. Each author's departments are
      those it had (`Prior` of the stored authors' states at the call),
      followed by one department per afid value whose affiliation the
      record lists, in the order the values are visited (`orders`): the
      first 'Undefined' department of the institution of that id in the
      final `new_institutions`, which holds one institution per id, so
      authors sharing an affiliation share its institution and department.
      Stored authors whose id no entry gives, and stored institutions
      outside `new_institutions`, are unchanged. */
  method AuthorProcess(store: Store, data: Dict)
    returns (r: Result<seq<(int, Author)>>, ghost newInsts: set<Institution>,
             ghost links: seq<seq<Link>>, ghost orders: seq<seq<JsonVal>>)
    requires Consistent(store)
    modifies store.institutions.Values, store.authors.Values
    ensures r.Err? <==> RecordErrors(store, data) != {}
    ensures r.Err? ==> r.error in RecordErrors(store, data)
    ensures ListField(data, "author").Err? ==> r == Err(ListField(data, "author").error)
    ensures ListField(data, "author") == Ok([]) ==> r == Ok([])
    ensures r.Ok? ==>
              ListField(data, "author").Ok?
              && Built(store, data, ListField(data, "author").value, r.value, links, orders, newInsts, View(store, newInsts),
                       old(StoredStates(store)))
    ensures forall k | k in store.authors :: store.authors[k].profiles == old(store.authors[k].profiles)
    ensures ListField(data, "author").Err? ==> unchanged(store.authors.Values) && unchanged(store.institutions.Values)
    ensures ListField(data, "author").Ok? ==>
              forall a | a in store.authors.Values && a.idScp !in ReadIds(IdResults(ListField(data, "author").value)) :: unchanged(a)
    ensures forall x | x in store.institutions.Values && x !in newInsts ::
              x.country == old(x.country) && x.departments == old(x.departments)
    ensures Ready(store, newInsts)
  {
    newInsts, links, orders := {}, [], [];
    var v :- GetItem(Obj(data), "author");
    if !Truthy(v) {
      return Ok([]), newInsts, links, orders;
    }
    var entries :- Iter(v);
    assert ListField(data, "author") == Ok(entries);
    r, newInsts, links, orders := ProcessList(store, data, entries);
  }

  /** Two links to the same institution id, whichever authors made them,
      are the same institution object and the same department. */
  lemma SharedAffiliation(store: Store, insts: set<Institution>, st: map<Institution, InstState>, a: seq<Link>, b: seq<Link>, j: nat, k: nat)
    requires NewInstsOk(store, insts) && LinksIn(a, insts, st) && LinksIn(b, insts, st)
    requires j < |a| && k < |b| && LinkIds(a)[j] == LinkIds(b)[k]
    ensures a[j] == b[k]
  {
  }

  /** A link to an id the store has is to the stored institution. */
  lemma StoredAffiliation(store: Store, insts: set<Institution>, st: map<Institution, InstState>, a: seq<Link>, j: nat)
    requires NewInstsOk(store, insts) && LinksIn(a, insts, st)
    requires j < |a| && LinkIds(a)[j] in store.institutions
    ensures a[j].0 == store.institutions[LinkIds(a)[j]]
  {
  }
}
