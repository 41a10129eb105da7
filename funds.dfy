/** `fund_process`: the funding of a paper, identified by the pair of its
    fund number and its sponsoring agency. */
module Funds {
  import opened Wrappers
  import opened Py
  import Helpers
  import opened Models

  /** The three values read from a record. */
  datatype FundValues = FundValues(idScp: JsonVal, agency: JsonVal, agencyAcronym: JsonVal)

  /** A fund number of 'undefined' is stored as 'NOT AVAILABLE'. */
  function NormalFundNo(v: JsonVal): (r: JsonVal)
    ensures v == Str("undefined") ==> r == NotAvailable
    ensures v != Str("undefined") ==> r == v
  {
    if v == Str("undefined") then NotAvailable else v
  }

  /** The values `fund_process` reads, or `None` when both the normalised
      fund number and the agency are 'NOT AVAILABLE'. Reading a field can
      raise, as `key_get` does on a malformed wrapper. */
  function FundOf(data: Dict): Result<Option<FundValues>> {
    var fid :- Helpers.Get(Obj(data), "fund-no", Null);
    var agency :- Helpers.Get(Obj(data), "fund-sponsor", NotAvailable);
    var acronym :- Helpers.Get(Obj(data), "fund-acr", Null);
    var id := NormalFundNo(fid);
    if id == NotAvailable && agency == NotAvailable then Ok(None)
    else Ok(Some(FundValues(id, agency, acronym)))
  }

  /** The record's fields decide the outcome: no fund exactly when both the
      normalised number and the (defaulted) sponsor are 'NOT AVAILABLE',
      otherwise the three values read. */
  lemma FundOfFields(data: Dict, fid: JsonVal, agency: JsonVal, acronym: JsonVal)
    requires Helpers.Get(Obj(data), "fund-no", Null) == Ok(fid)
    requires Helpers.Get(Obj(data), "fund-sponsor", NotAvailable) == Ok(agency)
    requires Helpers.Get(Obj(data), "fund-acr", Null) == Ok(acronym)
    ensures FundOf(data).Ok?
    ensures FundOf(data).value.None? <==> (fid == Str("undefined") || fid == NotAvailable) && agency == NotAvailable
    ensures FundOf(data).value.Some? ==>
              FundOf(data).value.value.agency == agency
              && FundOf(data).value.value.agencyAcronym == acronym
              && FundOf(data).value.value.idScp == (if fid == Str("undefined") then NotAvailable else fid)
  {
  }

  /** Reading stops at the first field that raises. */
  lemma FundOfErr(data: Dict)
    ensures FundOf(data).Err? <==>
              Helpers.Get(Obj(data), "fund-no", Null).Err?
              || Helpers.Get(Obj(data), "fund-sponsor", NotAvailable).Err?
              || Helpers.Get(Obj(data), "fund-acr", Null).Err?
  {
  }

  /** A missing or null sponsor becomes 'NOT AVAILABLE'. */
  lemma MissingSponsor(data: Dict)
    requires Lookup(data, "fund-sponsor").None? || Lookup(data, "fund-sponsor") == Some(Null)
    requires FundOf(data).Ok? && FundOf(data).value.Some?
    ensures FundOf(data).value.value.agency == NotAvailable
  {
    Helpers.KeyGetDefault(data, "fund-sponsor", false, NotAvailable);
  }

  /** A literal 'undefined' fund number becomes 'NOT AVAILABLE', while an
      absent one stays None, and then a fund is always made. */
  lemma UndefinedAndAbsentFundNo(data: Dict)
    requires FundOf(data).Ok?
    ensures Lookup(data, "fund-no") == Some(Str("undefined")) && FundOf(data).value.Some? ==>
              FundOf(data).value.value.idScp == NotAvailable
    ensures Lookup(data, "fund-no").None? ==>
              FundOf(data).value.Some? && FundOf(data).value.value.idScp == Null
  {
    if Lookup(data, "fund-no").None? {
      Helpers.KeyGetDefault(data, "fund-no", false, Null);
    }
  }

  /** 'undefined' as a fund number together with no sponsor gives no fund
      when `fund_process` reads the record as it is... */
  lemma NoFundFromRawRecord(data: Dict)
    requires Lookup(data, "fund-no") == Some(Str("undefined")) && Lookup(data, "fund-sponsor").None?
    requires Helpers.Get(Obj(data), "fund-acr", Null).Ok?
    ensures FundOf(data) == Ok(None)
  {
    Helpers.KeyGetDefault(data, "fund-sponsor", false, NotAvailable);
  }

  /** ...but `paper_process` has already turned 'undefined' into None, so a
      record with neither fund field still yields a fund, whose number is None. */
  lemma FundAfterPaperNullify(data: Dict)
    requires UniqueKeys(data)
    requires Lookup(data, "fund-no").None? || Lookup(data, "fund-no").value in Helpers.PaperNullTypes
    requires Lookup(data, "fund-sponsor").None? || Lookup(data, "fund-sponsor").value in Helpers.PaperNullTypes
    requires Helpers.Get(Obj(Helpers.Nullified(data, Helpers.PaperNullTypes)), "fund-acr", Null).Ok?
    ensures var r := FundOf(Helpers.Nullified(data, Helpers.PaperNullTypes));
            r.Ok? && r.value.Some? && r.value.value.idScp == Null && r.value.value.agency == NotAvailable
  {
    var n := Helpers.Nullified(data, Helpers.PaperNullTypes);
    Helpers.NullifiedLookup(data, Helpers.PaperNullTypes, "fund-no");
    Helpers.NullifiedLookup(data, Helpers.PaperNullTypes, "fund-sponsor");
    Helpers.KeyGetDefault(n, "fund-no", false, Null);
    Helpers.KeyGetDefault(n, "fund-sponsor", false, NotAvailable);
  }

  /** `fund_process`: no fund, the stored fund with the same number and
      agency (the acronym is not compared), or a new fund with the three
      values read; the store is not written. */
  method FundProcess(store: Store, data: Dict) returns (r: Result<Fund?>)
    requires Consistent(store)
    ensures r.Ok? <==> FundOf(data).Ok?
    ensures r.Err? ==> r.error == FundOf(data).error
    ensures r.Ok? ==> (r.value == null <==> FundOf(data).value.None?)
    ensures r.Ok? && r.value != null ==>
              var f := FundOf(data).value.value;
              r.value.idScp == f.idScp && r.value.agency == f.agency
              && ((f.idScp, f.agency) in store.funds ==> r.value == store.funds[(f.idScp, f.agency)])
              && ((f.idScp, f.agency) !in store.funds ==> fresh(r.value) && r.value.agencyAcronym == f.agencyAcronym)
  {
    var fid :- Helpers.Get(Obj(data), "fund-no", Null);
    var agency :- Helpers.Get(Obj(data), "fund-sponsor", NotAvailable);
    var acronym :- Helpers.Get(Obj(data), "fund-acr", Null);
    if fid == Str("undefined") {
      fid := NotAvailable;
    }
    if fid == NotAvailable && agency == NotAvailable {
      return Ok(null);
    }
    var fund: Fund;
    if (fid, agency) in store.funds {
      fund := store.funds[(fid, agency)];
    } else {
      fund := new Fund(fid, agency, acronym);
    }
    return Ok(fund);
  }
}
