/** `institution_process`: the institution and department a paper lists
    for one author's affiliation id, found in the store, among the
    institutions already created for the current paper, or created. */
module Institutions {
  import opened Wrappers
  import opened Py
  import PyStr
  import Helpers
  import opened Models

  /** `int(get_key(affil, 'afid'))` inside `try ... except (TypeError, ValueError)`:
      `None` when either step raises one of those (the entry is skipped);
      KeyError and IndexError from `get_key` escape. */
  function AfidOf(affil: JsonVal): (r: Result<Option<int>>)
    ensures r.Err? ==> r.error != TypeError && r.error != ValueError
    ensures r.Ok? && r.value.Some? ==>
              Helpers.Get(affil, "afid", Null).Ok?
              && PyInt(Helpers.Get(affil, "afid", Null).value) == Ok(r.value.value)
  {
    match Helpers.Get(affil, "afid", Null)
    case Err(e) => if e == TypeError then Ok(None) else Err(e)
    case Ok(v) =>
      match PyInt(v)
      case Ok(n) => Ok(Some(n))
      case Err(_) => Ok(None)
  }

  /** An affiliation id in any wire shape, as an int or as its decimal text, is read back. */
  lemma AfidOfWire(d: Dict, n: int, asText: bool, shape: Helpers.Wire)
    requires Lookup(d, "afid") == Some(Helpers.Encode(if asText then Str(PyStr.IntToStr(n)) else Num(n), shape))
    ensures AfidOf(Obj(d)) == Ok(Some(n))
  {
    var v := if asText then Str(PyStr.IntToStr(n)) else Num(n);
    Helpers.KeyGetDecodesWire(d, "afid", v, shape, Null);
    PyIntOfIntToStr(n);
  }

  /** An affiliation that is not a dict, or has no id, is skipped. */
  lemma AfidOfMissing(affil: JsonVal)
    requires !affil.Obj? || Lookup(affil.fields, "afid").None? || Lookup(affil.fields, "afid") == Some(Null)
    ensures AfidOf(affil) == Ok(None)
  {
    if affil.Obj? {
      Helpers.KeyGetDefault(affil.fields, "afid", false, Null);
    }
  }

  /** What reading each affiliation's id gives. */
  function Afids(affils: seq<JsonVal>): (r: seq<Result<Option<int>>>)
    ensures |r| == |affils| && forall j :: 0 <= j < |affils| ==> r[j] == AfidOf(affils[j])
  {
    seq(|affils|, j requires 0 <= j < |affils| => AfidOf(affils[j]))
  }

  /** The loop's search from position `from` over the ids read from the
      affiliations: the index of the first one that is `instId`, or the
      exception raised on the way. */
  function Scan(afids: seq<Result<Option<int>>>, instId: int, from: nat): (r: Result<Option<nat>>)
    requires from <= |afids|
    decreases |afids| - from
    ensures r.Ok? && r.value.Some? ==> from <= r.value.value < |afids| && afids[r.value.value] == Ok(Some(instId))
    ensures r.Err? ==> exists j :: from <= j < |afids| && afids[j] == Err(r.error)
  {
    if from == |afids| then Ok(None)
    else
      match afids[from]
      case Err(e) => Err(e)
      case Ok(a) => if a == Some(instId) then Ok(Some(from)) else Scan(afids, instId, from + 1)
  }

  /** Only the first matching affiliation is used: every earlier one was
      read without error and did not match; `None` means none matched. */
  lemma {:induction false} ScanFirst(afids: seq<Result<Option<int>>>, instId: int, from: nat)
    requires from <= |afids|
    decreases |afids| - from
    ensures Scan(afids, instId, from).Ok? && Scan(afids, instId, from).value.Some? ==>
              forall j :: from <= j < Scan(afids, instId, from).value.value ==>
                afids[j].Ok? && afids[j] != Ok(Some(instId))
    ensures Scan(afids, instId, from) == Ok(None) <==>
              forall j :: from <= j < |afids| ==> afids[j].Ok? && afids[j] != Ok(Some(instId))
  {
    if from < |afids| && afids[from].Ok? && afids[from] != Ok(Some(instId)) {
      ScanFirst(afids, instId, from + 1);
    }
  }

  /** The position of the affiliation that is used, if any. */
  function Found(data: Dict, instId: int): Result<Option<nat>> {
    var affils :- ListField(data, "affiliation");
    Scan(Afids(affils), instId, 0)
  }

  /** The exception `institution_process` raises for `instId` when no
      institution of that id was created for the paper yet, or one was,
      from the same entry: the search's, or, for an id the store lacks,
      reading the new institution's values from the affiliation found. */
  function InstError(store: Store, data: Dict, instId: int): Option<PyError> {
    match Found(data, instId)
    case Err(e) => Some(e)
    case Ok(k) =>
      if k.None? || instId in store.institutions then None
      else
        match NewInstitutionValues(ListField(data, "affiliation").value[k.value])
        case Err(e) => Some(e)
        case Ok(_) => None
  }

  /** The values a new institution is created with, read from its
      affiliation entry, and the alias-folded country name. */
  datatype NewValues = NewValues(name: JsonVal, city: JsonVal, countryName: JsonVal)

  function NewInstitutionValues(affil: JsonVal): Result<NewValues> {
    var name :- Helpers.Get(affil, "affilname", NotAvailable);
    var city :- Helpers.Get(affil, "affiliation-city", Null);
    var country :- Helpers.Get(affil, "affiliation-country", Null);
    var countryName :- Helpers.CountryNames(country);
    Ok(NewValues(name, city, countryName))
  }

  /** A new institution's name defaults to 'NOT AVAILABLE'. */
  lemma NewInstitutionName(d: Dict)
    requires Lookup(d, "affilname").None? || Lookup(d, "affilname") == Some(Null)
    requires NewInstitutionValues(Obj(d)).Ok?
    ensures NewInstitutionValues(Obj(d)).value.name == NotAvailable
  {
    Helpers.KeyGetDefault(d, "affilname", false, NotAvailable);
  }

  /** The country a new institution gets: the stored country of the folded
      name when that name is truthy, and none otherwise. */
  function CountryFor(store: Store, countryName: JsonVal): (r: Country?)
    ensures r != null ==> countryName.Str? && countryName.s in store.countries
                          && r == store.countries[countryName.s]
    ensures countryName.Str? && countryName.s != "" && countryName.s in store.countries ==> r != null
  {
    if Truthy(countryName) then FindCountry(store, countryName) else null
  }

  /** The 'Undefined' department created for an institution. */
  predicate IsUndefinedDepartment(d: Department) {
    d.name == Undefined && d.abbreviation == Str("No Dept.") && d.kind == Null
  }

  /** The loop of `institution_process` up to its `break`: the position of
      the first affiliation whose id parses to `instId`. */
  method FindAffiliation(affils: seq<JsonVal>, instId: int) returns (r: Result<Option<nat>>)
    ensures r == Scan(Afids(affils), instId, 0)
  {
    ghost var afids := Afids(affils);
    for k := 0 to |affils|
      invariant Scan(afids, instId, 0) == Scan(afids, instId, k)
    {
      var afid := AfidOf(affils[k]);
      assert afid == afids[k];
      if afid.Err? {
        return Err(afid.error);
      }
      if afid.value == Some(instId) {
        return Ok(Some(k));
      }
    }
    return Ok(None);
  }

  /** A stored institution: its 'Undefined' department, or a new one
      appended when it has none. */
  method ResolveStored(store: Store, instId: int) returns (inst: Institution, dept: Department)
    requires instId in store.institutions
    modifies store.institutions[instId]
    ensures inst == store.institutions[instId] && dept in inst.departments
    ensures inst.country == old(inst.country)
    ensures var known := old(FirstDepartment(inst.departments, true, Undefined));
            (known != null ==> dept == known && unchanged(inst))
            && (known == null ==> fresh(dept) && IsUndefinedDepartment(dept)
                                  && inst.departments == old(inst.departments) + [dept]
                                  && dept.institution == inst)
  {
    inst := store.institutions[instId];
    var known := FirstDepartment(inst.departments, true, Undefined);
    if known != null {
      dept := known;
    } else {
      dept := new Department(Undefined, Null, Str("No Dept."), Null, Null);
      inst.AddDepartment(dept);
    }
  }

  /** An institution created earlier for this paper, with its first
      department; IndexError when it has none. */
  method ResolveNew(newInsts: set<Institution>, instId: int) returns (r: Result<(Institution, Department)>)
    requires exists i :: i in newInsts && i.idScp == instId
    ensures r.Ok? ==> r.value.0 in newInsts && r.value.0.idScp == instId
                      && r.value.0.departments != [] && r.value.1 == r.value.0.departments[0]
    ensures r.Err? ==> r.error == IndexError
                       && exists i :: i in newInsts && i.idScp == instId && i.departments == []
  {
    var inst :| inst in newInsts && inst.idScp == instId;
    if inst.departments == [] {
      return Err(IndexError);
    }
    return Ok((inst, inst.departments[0]));
  }

  /** A new institution from its affiliation entry, with one 'Undefined' department. */
  method CreateInstitution(store: Store, affil: JsonVal, instId: int) returns (r: Result<(Institution, Department)>)
    ensures r.Ok? <==> NewInstitutionValues(affil).Ok?
    ensures r.Err? ==> r.error == NewInstitutionValues(affil).error
    ensures r.Ok? ==> var v := NewInstitutionValues(affil).value;
                      fresh(r.value.0) && fresh(r.value.1)
                      && r.value.0.idScp == instId && r.value.0.name == v.name
                      && r.value.0.city == v.city && r.value.0.country == CountryFor(store, v.countryName)
                      && r.value.0.departments == [r.value.1] && IsUndefinedDepartment(r.value.1)
                      && r.value.1.institution == r.value.0
  {
    var v :- NewInstitutionValues(affil);
    var inst := new Institution(instId, v.name, v.city);
    if Truthy(v.countryName) {
      inst.country := FindCountry(store, v.countryName);
    }
    var dept := new Department(Undefined, Null, Str("No Dept."), Null, Null);
    inst.AddDepartment(dept);
    return Ok((inst, dept));
  }

  /** `institution_process(db, data, inst_id, new_institutions)`. A stored
      institution can gain a department; `new_institutions` is not written. */
  method InstitutionProcess(store: Store, data: Dict, instId: int, newInsts: set<Institution>)
    returns (r: Result<(Institution?, Department?)>)
    requires Consistent(store)
    modifies store.institutions.Values
    ensures Found(data, instId).Err? ==> r == Err(Found(data, instId).error)
    ensures Found(data, instId) == Ok(None) ==> r == Ok((null, null))
    ensures Found(data, instId).Err? || Found(data, instId) == Ok(None) ==> unchanged(store.institutions.Values)
    ensures forall i | i in store.institutions.Values :: old(i.departments) <= i.departments
    // Whenever an institution is returned, so is one of its departments.
    ensures r.Ok? && r.value.0 != null ==> r.value.1 != null && r.value.1 in r.value.0.departments
    ensures r.Ok? && r.value.0 == null ==> r.value.1 == null
    // In short: the store's institution, one from `new_institutions`, or a
    // new one whose id neither has.
    ensures r.Ok? && r.value.0 != null ==>
              r.value.0.idScp == instId
              && ((instId in store.institutions && r.value.0 == store.institutions[instId])
                  || (instId !in store.institutions && r.value.0 in newInsts)
                  || (instId !in store.institutions && fresh(r.value.0)
                      && forall i :: i in newInsts ==> i.idScp != instId))
    // 1. The store is searched first.
    ensures Found(data, instId).Ok? && Found(data, instId).value.Some? && instId in store.institutions ==>
              var inst := store.institutions[instId];
              var known := old(FirstDepartment(inst.departments, true, Undefined));
              r.Ok? && r.value.0 == inst && inst.country == old(inst.country)
              && (forall i | i in store.institutions.Values && i != inst :: unchanged(i))
              && (known != null ==> r.value.1 == known && unchanged(inst))
              && (known == null ==> fresh(r.value.1) && IsUndefinedDepartment(r.value.1)
                                    && inst.departments == old(inst.departments) + [r.value.1]
                                    && r.value.1.institution == inst)
    // 2. Then the institutions created for this paper, by id: one is reused
    //    with its first department (IndexError when it has none).
    ensures Found(data, instId).Ok? && Found(data, instId).value.Some? && instId !in store.institutions
            && (exists i :: i in newInsts && i.idScp == instId) ==>
              unchanged(store.institutions.Values)
              && (r.Ok? ==> r.value.0 in newInsts && r.value.0.idScp == instId
                            && r.value.0.departments != [] && r.value.1 == r.value.0.departments[0])
              && (r.Err? ==> r.error == IndexError
                             && exists i :: i in newInsts && i.idScp == instId && i.departments == [])
    // 3. Otherwise a new institution with exactly one, 'Undefined', department.
    ensures Found(data, instId).Ok? && Found(data, instId).value.Some? && instId !in store.institutions
            && (forall i :: i in newInsts ==> i.idScp != instId) ==>
              var affil := ListField(data, "affiliation").value[Found(data, instId).value.value];
              unchanged(store.institutions.Values)
              && (r.Ok? <==> NewInstitutionValues(affil).Ok?)
              && (r.Err? ==> r.error == NewInstitutionValues(affil).error)
              && (r.Ok? ==> var v := NewInstitutionValues(affil).value;
                            r.value.0 != null && fresh(r.value.0) && fresh(r.value.1)
                            && r.value.0.idScp == instId && r.value.0.name == v.name
                            && r.value.0.city == v.city && r.value.0.country == CountryFor(store, v.countryName)
                            && r.value.0.departments == [r.value.1] && IsUndefinedDepartment(r.value.1)
                            && r.value.1.institution == r.value.0)
  {
    var affiliation :- GetItem(Obj(data), "affiliation");
    if !Truthy(affiliation) {
      return Ok((null, null));
    }
    var affils :- Iter(affiliation);
    var found :- FindAffiliation(affils, instId);
    if found.None? {
      return Ok((null, null));
    }
    var k := found.value;
    if instId in store.institutions {
      var inst, dept := ResolveStored(store, instId);
      return Ok((inst, dept));
    } else if exists i :: i in newInsts && i.idScp == instId {
      var pair :- ResolveNew(newInsts, instId);
      return Ok((pair.0, pair.1));
    } else {
      var pair :- CreateInstitution(store, affils[k], instId);
      return Ok((pair.0, pair.1));
    }
  }
}
