/** `file_process`: the batch triage of the entries of one Scopus search
    result. Each entry is inspected; its issues are logged as a bad-paper
    record; a missing Scopus ID is rebuilt from the EID; entries whose only
    issues are minor go to `paper_process`, and a failure there is logged
    against the entry's Scopus ID. */
module Files {
  import opened Wrappers
  import opened Py
  import PyStr
  import Helpers
  import opened Models
  import Papers

  /** Issues that default values cover later on. */
  const MinorIssues: seq<string> := [
    "eid", "dc:title", "subtype", "author-count", "openaccess",
    "citedby-count", "source-id", "prism:publicationName", "author:afid"
  ]

  /** One element of `bad_papers`: '#', 'issues', 'id_scp' and 'error_type',
      each of which a record may lack. The error message is not modelled. */
  datatype BadPaper = BadPaper(
    index: nat,
    issues: Option<seq<string>>,
    idScp: Option<JsonVal>,
    errorType: Option<PyError>)

  /** The returned pair: `problems` (None for `{}`) and `papers_list`. */
  datatype FileReport = FileReport(problems: Option<seq<BadPaper>>, papers: seq<Paper>)

  /** `[i for i in issues if i not in minor_issues]`. */
  function Major(issues: seq<string>): (r: seq<string>)
    decreases |issues|
    ensures forall i :: i in r <==> i in issues && i !in MinorIssues
    ensures |r| <= |issues|
  {
    if issues == [] then []
    else (if issues[0] in MinorIssues then [] else [issues[0]]) + Major(issues[1..])
  }

  /** `issues.remove(x)`: the first occurrence of `x` goes. */
  function RemoveFirst(s: seq<string>, x: string): (r: seq<string>)
    decreases |s|
    ensures x in s ==> |r| == |s| - 1 && multiset(r) + multiset{x} == multiset(s)
    ensures x !in s ==> r == s
  {
    if s == [] then []
    else if s[0] == x then
      assert s == [s[0]] + s[1..];
      s[1..]
    else
      assert s == [s[0]] + s[1..];
      [s[0]] + RemoveFirst(s[1..], x)
  }

  /** `int(entry['eid'].replace('2-s2.0-', ''))`: only a str has `replace`. */
  function EidId(entry: Dict): (r: Result<int>)
    ensures Lookup(entry, "eid").None? ==> r == Err(KeyError)
    ensures Lookup(entry, "eid").Some? && !Lookup(entry, "eid").value.Str? ==> r == Err(AttributeError)
    ensures r.Err? && Lookup(entry, "eid").Some? ==> r.error == AttributeError || r.error == ValueError
  {
    var eid :- GetItem(Obj(entry), "eid");
    if eid.Str? then PyInt(Str(PyStr.Replace(eid.s, "2-s2.0-", ""))) else Err(AttributeError)
  }

  /** An EID of the form '2-s2.0-N' yields the Scopus ID N. */
  lemma EidIdOfDefault(entry: Dict, n: int)
    requires Lookup(entry, "eid") == Some(Str(Papers.DefaultEid(n)))
    ensures EidId(entry) == Ok(n)
  {
    Papers.DefaultEidReadBack(n);
  }

  /** `f'SCOPUS_ID:{paper_id_scp}'`. */
  function ScopusIdText(pid: int): string {
    "SCOPUS_ID:" + PyStr.IntToStr(pid)
  }

  /** What the inspection of one entry leaves: the record it logs (if any),
      the entry as it goes on (its 'dc:identifier' possibly rebuilt) and
      whether it is handed to `paper_process`. */
  datatype Verdict = Verdict(record: Option<BadPaper>, entry: Dict, process: bool)

  /** The record gets the entry's Scopus ID, then major issues stop it. */
  function Logged(cnt: nat, found: seq<string>, entry: Dict, left: seq<string>): Result<Verdict> {
    var id :- GetItem(Obj(entry), "dc:identifier");
    Ok(Verdict(Some(BadPaper(cnt, Some(found), Some(id), None)), entry, Major(left) == []))
  }

  /** The classification of one entry, given the issues the inspection
      found, before `paper_process`. */
  function Classify(cnt: nat, entry: Dict, found: seq<string>): Result<Verdict> {
    if found == [] then Ok(Verdict(None, entry, true))
    else
      var skipped := Verdict(Some(BadPaper(cnt, Some(found), None, None)), entry, false);
      if "dc:identifier" !in found then Logged(cnt, found, entry, found)
      else if "eid" in found then Ok(skipped)
      else
        match EidId(entry)
        case Err(e) => if e == AttributeError || e == ValueError then Ok(skipped) else Err(e)
        case Ok(pid) =>
          Logged(cnt, found, SetItem(entry, "dc:identifier", Str(ScopusIdText(pid))),
                 RemoveFirst(found, "dc:identifier"))
  }

  /** Inspection, then classification; an inspection that raises ends the
      whole file. */
  function Triage(cnt: nat, entry: Dict): Result<Verdict> {
    var found :- Helpers.Inspection(entry);
    Classify(cnt, entry, found)
  }

  predicate Processes(cnt: nat, entry: Dict) {
    Triage(cnt, entry).Ok? && Triage(cnt, entry).value.process
  }

  /** Lines 83-112 as statements: inspect, log, rebuild the Scopus ID and
      drop the minor issues. */
  method TriageEntry(cnt: nat, entry: Dict) returns (r: Result<Verdict>)
    ensures r == Triage(cnt, entry)
  {
    var inspected := Helpers.DataInspector(entry);
    if inspected.Err? {
      r := Err(inspected.error);
    } else if inspected.value == [] {
      r := Ok(Verdict(None, entry, true));
    } else {
      var found := inspected.value;
      var issues := found;
      var e := entry;
      var go := true;
      r := Ok(Verdict(Some(BadPaper(cnt, Some(found), None, None)), entry, false));
      if "dc:identifier" in issues {
        if "eid" in issues {
          go := false;
        } else {
          var pid := EidId(e);
          if pid.Err? {
            go := false;
            if pid.error != AttributeError && pid.error != ValueError {
              r := Err(pid.error);
            }
          } else {
            e := SetItem(e, "dc:identifier", Str(ScopusIdText(pid.value)));
            issues := RemoveFirst(issues, "dc:identifier");
          }
        }
      }
      if go {
        var id := GetItem(Obj(e), "dc:identifier");
        if id.Err? {
          r := Err(id.error);
        } else {
          issues := Major(issues);
          r := Ok(Verdict(Some(BadPaper(cnt, Some(found), Some(id.value), None)), e, issues == []));
        }
      }
    }
  }

  /** An entry with issues is processed only when every issue is minor,
      apart from a missing 'dc:identifier' rebuilt from the EID; every
      skipped entry has a major issue; minor issues alone never stop it. */
  lemma ClassifyIssues(cnt: nat, entry: Dict, found: seq<string>)
    requires Classify(cnt, entry, found).Ok?
    ensures var v := Classify(cnt, entry, found).value;
            (v.record.None? <==> found == [])
            && (v.record.Some? ==> v.record.value.index == cnt && v.record.value.issues == Some(found)
                                   && v.record.value.errorType.None?)
            && (v.process ==> forall i :: i in found ==> i in MinorIssues || i == "dc:identifier")
            && (!v.process ==> exists i :: i in found && i !in MinorIssues)
            && ((forall i :: i in found ==> i in MinorIssues) ==> v.process && v.entry == entry)
  {
    var v := Classify(cnt, entry, found).value;
    assert "dc:identifier" !in MinorIssues;
    if found == [] {
    } else if "dc:identifier" !in found {
      if !v.process {
        assert Major(found) != [];
        var j := Major(found)[0];
        assert j in found && j !in MinorIssues;
      }
    } else if "eid" in found || EidId(entry).Err? {
      assert !v.process;
    } else {
      var left := RemoveFirst(found, "dc:identifier");
      if v.process {
        forall i | i in found ensures i in MinorIssues || i == "dc:identifier" {
          if i != "dc:identifier" {
            assert multiset(left)[i] == multiset(found)[i];
            assert i in left;
          }
        }
      }
    }
  }

  /** An entry that lacks both 'dc:identifier' and 'eid' is logged without a
      Scopus ID and never handed on. */
  lemma TriageNoIds(cnt: nat, entry: Dict)
    requires Lookup(entry, "dc:identifier").None? && Lookup(entry, "eid").None?
    requires Triage(cnt, entry).Ok?
    ensures var v := Triage(cnt, entry).value;
            !v.process && v.record == Some(BadPaper(cnt, Some(Helpers.Inspection(entry).value), None, None))
  {
    InspectionIdKeys(entry);
  }

  lemma LinkIssuesOnly(entry: Dict, k: string)
    requires Helpers.LinkIssues(entry).Ok? && k != "paper url"
    ensures k !in Helpers.LinkIssues(entry).value
  {
  }

  lemma AuthorCountIssuesOnly(entry: Dict, k: string)
    requires Helpers.AuthorCountIssues(entry).Ok? && k != "author-count"
    ensures k !in Helpers.AuthorCountIssues(entry).value
  {
  }

  /** A key that is neither 'paper url' nor 'author-count' nor tagged is
      reported only by the first stage, the missing first-level keys. */
  lemma NotLater(entry: Dict, k: string)
    requires Helpers.Inspection(entry).Ok?
    requires k != "paper url" && k != "author-count"
    requires !("author:" <= k) && !("affiliation:" <= k)
    ensures k in Helpers.Inspection(entry).value <==> k in Helpers.MissingKeys(entry, Helpers.FirstLevelKeys)
  {
    Helpers.InspectionParts(entry);
    LinkIssuesOnly(entry, k);
    AuthorCountIssuesOnly(entry, k);
  }

  /** The inspection reports 'dc:identifier' and 'eid' exactly when the
      entry lacks them: no later stage names either key. */
  lemma InspectionIdKeys(entry: Dict)
    requires Helpers.Inspection(entry).Ok?
    ensures var found := Helpers.Inspection(entry).value;
            ("eid" in found <==> Lookup(entry, "eid").None?)
            && ("dc:identifier" in found <==> Lookup(entry, "dc:identifier").None?)
  {
    assert "dc:identifier"[0] == 'd' && |"eid"| < |"author:"|;
    NotLater(entry, "eid");
    NotLater(entry, "dc:identifier");
    Helpers.MissingKeysMembers(entry, Helpers.FirstLevelKeys);
    assert "eid" in Helpers.FirstLevelKeys && "dc:identifier" in Helpers.FirstLevelKeys;
  }

  /** The rebuilt ID survives `nullify` and reads back as N. */
  lemma ScopusIdKept(entry: Dict, n: int)
    requires UniqueKeys(entry)
    ensures var e := SetItem(entry, "dc:identifier", Str(ScopusIdText(n)));
            Papers.ScopusIdOf(Helpers.Nullified(e, Helpers.PaperNullTypes)) == Ok(n)
  {
    var t := ScopusIdText(n);
    var e := SetItem(entry, "dc:identifier", Str(t));
    SetItemUnique(entry, "dc:identifier", Str(t));
    Helpers.NullifiedLookup(e, Helpers.PaperNullTypes, "dc:identifier");
    NotNullLooking(t);
    var d := Helpers.Nullified(e, Helpers.PaperNullTypes);
    assert Lookup(d, "dc:identifier") == Some(Str(t));
    Papers.ScopusIdOfText(d, n);
  }

  /** A str longer than every null-looking str is kept by `nullify`. */
  lemma NotNullLooking(t: string)
    requires |t| > 9
    ensures Str(t) !in Helpers.PaperNullTypes
  {
  }

  /** A missing 'dc:identifier' with EID '2-s2.0-N' becomes 'SCOPUS_ID:N';
      the issue list loses 'dc:identifier' and the rest decides. */
  lemma ClassifyDerivesId(cnt: nat, entry: Dict, found: seq<string>, n: int)
    requires "dc:identifier" in found && "eid" !in found
    requires Lookup(entry, "eid") == Some(Str(Papers.DefaultEid(n)))
    ensures var r := Classify(cnt, entry, found);
            var e := SetItem(entry, "dc:identifier", Str(ScopusIdText(n)));
            r.Ok? && r.value.entry == e
            && r.value.record == Some(BadPaper(cnt, Some(found), Some(Str(ScopusIdText(n))), None))
            && (r.value.process <==> forall i :: i in RemoveFirst(found, "dc:identifier") ==> i in MinorIssues)
  {
    EidIdOfDefault(entry, n);
    var e := SetItem(entry, "dc:identifier", Str(ScopusIdText(n)));
    var left := RemoveFirst(found, "dc:identifier");
    assert GetItem(Obj(e), "dc:identifier") == Ok(Str(ScopusIdText(n)));
    assert Major(left) == [] <==> forall i :: i in left ==> i in MinorIssues by {
      if Major(left) != [] {
        assert Major(left)[0] in Major(left);
      }
    }
  }

  /** A missing 'dc:identifier' with EID '2-s2.0-N' becomes 'SCOPUS_ID:N',
      which is the ID that `paper_process` then reads. */
  lemma TriageDerivesId(cnt: nat, entry: Dict, n: int)
    requires UniqueKeys(entry)
    requires Lookup(entry, "dc:identifier").None? && Lookup(entry, "eid") == Some(Str(Papers.DefaultEid(n)))
    requires Helpers.Inspection(entry).Ok?
    ensures var v := Triage(cnt, entry);
            var found := Helpers.Inspection(entry).value;
            v == Classify(cnt, entry, found) && v.Ok?
            && Papers.ScopusIdOf(Helpers.Nullified(v.value.entry, Helpers.PaperNullTypes)) == Ok(n)
  {
    InspectionIdKeys(entry);
    var found := Helpers.Inspection(entry).value;
    ClassifyDerivesId(cnt, entry, found, n);
    ScopusIdKept(entry, n);
  }

  /** `paper_process` may add 'dc:identifier' only where the entry lacked
      it, so the entry it receives still has unique keys. */
  lemma ClassifyKeepsUnique(cnt: nat, entry: Dict, found: seq<string>)
    requires UniqueKeys(entry) && Classify(cnt, entry, found).Ok?
    ensures UniqueKeys(Classify(cnt, entry, found).value.entry)
  {
    if found != [] && "dc:identifier" in found && "eid" !in found && EidId(entry).Ok? {
      SetItemUnique(entry, "dc:identifier", Str(ScopusIdText(EidId(entry).value)));
    }
  }

  // ================================================================ the error path

  /** Lines 118-133, given the records so far, the entry as `paper_process`
      left it (it nullifies its argument in place) and the exception: the
      last record is compared by 'id_scp'; a new record is appended when
      there is none or the Scopus ID differs, and the last record then gets
      the error type. A last record without 'id_scp' (an entry skipped
      before line 106) makes line 123 raise a KeyError that no handler
      catches; the `finally` block then overwrites that record, but the
      whole batch is lost with the exception. An entry without
      'dc:identifier' raises KeyError at line 123 or 127, except when there
      is no record yet: then the `finally` block's `bad_papers[-1]` raises
      IndexError, which replaces the KeyError. */
  function OnError(bad: seq<BadPaper>, cnt: nat, entry: Dict, e: PyError): (r: Result<seq<BadPaper>>)
    ensures r.Err? <==> Lookup(entry, "dc:identifier").None? || (bad != [] && bad[|bad| - 1].idScp.None?)
    ensures r.Err? ==> r.error == if bad == [] then IndexError else KeyError
    ensures r.Ok? ==>
              var id := Lookup(entry, "dc:identifier").value;
              |r.value| > 0 && r.value[|r.value| - 1].idScp == Some(id) && r.value[|r.value| - 1].errorType == Some(e)
              && (bad == [] || bad[|bad| - 1].idScp != Some(id) ==>
                    r.value == bad + [BadPaper(cnt, None, Some(id), Some(e))])
              && (bad != [] && bad[|bad| - 1].idScp == Some(id) ==>
                    r.value == bad[..|bad| - 1] + [bad[|bad| - 1].(errorType := Some(e))])
  {
    var id := Lookup(entry, "dc:identifier");
    if bad == [] then
      if id.None? then Err(IndexError) else Ok([BadPaper(cnt, None, Some(id.value), Some(e))])
    else
      var last := bad[|bad| - 1];
      if last.idScp.None? || id.None? then Err(KeyError)
      else if last.idScp.value != id.value then Ok(bad + [BadPaper(cnt, None, Some(id.value), Some(e))])
      else Ok(bad[..|bad| - 1] + [last.(errorType := Some(e))])
  }

  // ================================================================ the entry loop

  /** One round of the loop: the records after entry `cnt`, given its
      triage `t` and what `paper_process` raised for it (`out`), if it was
      called. */
  function StepLog(bad: seq<BadPaper>, cnt: nat, t: Result<Verdict>, out: Option<PyError>): Result<seq<BadPaper>> {
    var v :- t;
    var logged := bad + (if v.record.Some? then [v.record.value] else []);
    if v.process && out.Some? then OnError(logged, cnt, Helpers.Nullified(v.entry, Helpers.PaperNullTypes), out.value)
    else Ok(logged)
  }

  /** `bad_papers` after the rounds whose triages are `vs`, where `outs[k]`
      is what `paper_process` raised in round `k` (None when it returned). */
  function Log(vs: seq<Result<Verdict>>, outs: seq<Option<PyError>>): Result<seq<BadPaper>>
    requires |outs| == |vs|
    decreases |vs|
  {
    if vs == [] then Ok([])
    else
      var n := |vs| - 1;
      var bad :- Log(vs[..n], outs[..n]);
      StepLog(bad, n, vs[n], outs[n])
  }

  predicate Handed(t: Result<Verdict>) {
    t.Ok? && t.value.process
  }

  /** The rounds whose `paper_process` call returned a paper. */
  function Succeeded(vs: seq<Result<Verdict>>, outs: seq<Option<PyError>>): seq<nat>
    requires |outs| == |vs|
    decreases |vs|
  {
    if vs == [] then []
    else
      var n := |vs| - 1;
      Succeeded(vs[..n], outs[..n]) + (if Handed(vs[n]) && outs[n].None? then [n] else [])
  }

  /** The papers come in entry order, one per successful call at most. */
  lemma {:induction false} SucceededInOrder(vs: seq<Result<Verdict>>, outs: seq<Option<PyError>>)
    requires |outs| == |vs|
    decreases |vs|
    ensures var s := Succeeded(vs, outs);
            |s| <= |vs|
            && (forall a, b :: 0 <= a < b < |s| ==> s[a] < s[b])
            && (forall a :: 0 <= a < |s| ==> s[a] < |vs| && Handed(vs[s[a]]) && outs[s[a]].None?)
  {
    if vs != [] {
      var n := |vs| - 1;
      SucceededInOrder(vs[..n], outs[..n]);
      var s0 := Succeeded(vs[..n], outs[..n]);
      assert forall a :: 0 <= a < |s0| ==> vs[..n][s0[a]] == vs[s0[a]] && outs[..n][s0[a]] == outs[s0[a]];
    }
  }

  /** The (index, issues) pairs of the records that carry 'issues'. */
  function IssueRecords(bad: seq<BadPaper>): seq<(nat, seq<string>)>
    decreases |bad|
  {
    if bad == [] then []
    else
      var last := bad[|bad| - 1];
      IssueRecords(bad[..|bad| - 1]) + (if last.issues.Some? then [(last.index, last.issues.value)] else [])
  }

  lemma {:induction false} IssueRecordsAppend(a: seq<BadPaper>, b: seq<BadPaper>)
    decreases |b|
    ensures IssueRecords(a + b) == IssueRecords(a) + IssueRecords(b)
  {
    if b == [] {
      assert a + b == a;
    } else {
      var n := |b| - 1;
      assert (a + b)[..|a + b| - 1] == a + b[..n];
      IssueRecordsAppend(a, b[..n]);
    }
  }

  /** The (index, issues) pairs of the rounds whose triage logged issues. */
  function Flagged(vs: seq<Result<Verdict>>): seq<(nat, seq<string>)>
    decreases |vs|
  {
    if vs == [] then []
    else
      var n := |vs| - 1;
      var t := vs[n];
      Flagged(vs[..n])
      + (if t.Ok? && t.value.record.Some? && t.value.record.value.issues.Some?
         then [(n, t.value.record.value.issues.value)] else [])
  }

  /** A triage logs at most its own record, under its own index. */
  predicate OwnRecord(cnt: nat, t: Result<Verdict>) {
    t.Ok? && t.value.record.Some? ==> t.value.record.value.index == cnt && t.value.record.value.issues.Some?
  }

  lemma TriageOwnRecord(cnt: nat, entry: Dict)
    ensures OwnRecord(cnt, Triage(cnt, entry))
  {
    if Triage(cnt, entry).Ok? {
      ClassifyIssues(cnt, entry, Helpers.Inspection(entry).value);
    }
  }

  /** One round adds its own record, if it logs one, and no other record
      with issues. */
  lemma StepRecords(bad: seq<BadPaper>, cnt: nat, t: Result<Verdict>, out: Option<PyError>)
    requires OwnRecord(cnt, t) && StepLog(bad, cnt, t, out).Ok?
    ensures IssueRecords(StepLog(bad, cnt, t, out).value)
            == IssueRecords(bad)
               + (if t.value.record.Some? then [(cnt, t.value.record.value.issues.value)] else [])
  {
    var v := t.value;
    var extra := if v.record.Some? then [v.record.value] else [];
    var logged := bad + extra;
    IssueRecordsAppend(bad, extra);
    if extra != [] {
      assert extra[..0] == [];
    }
    if v.process && out.Some? {
      var d := Helpers.Nullified(v.entry, Helpers.PaperNullTypes);
      var r := OnError(logged, cnt, d, out.value).value;
      var id := Lookup(d, "dc:identifier").value;
      if logged == [] || logged[|logged| - 1].idScp != Some(id) {
        IssueRecordsAppend(logged, [BadPaper(cnt, None, Some(id), Some(out.value))]);
        assert [BadPaper(cnt, None, Some(id), Some(out.value))][..0] == [];
      } else {
        var n := |logged| - 1;
        assert r[..n] == logged[..n];
      }
    }
  }

  /** Each round that logs issues leaves exactly one record with its index
      and its issue list, in entry order; no other record carries issues. */
  lemma {:induction false} LogRecords(vs: seq<Result<Verdict>>, outs: seq<Option<PyError>>)
    requires |outs| == |vs| && Log(vs, outs).Ok?
    requires forall k :: 0 <= k < |vs| ==> OwnRecord(k, vs[k])
    decreases |vs|
    ensures IssueRecords(Log(vs, outs).value) == Flagged(vs)
  {
    if vs != [] {
      var n := |vs| - 1;
      assert forall k :: 0 <= k < n ==> vs[..n][k] == vs[k];
      LogRecords(vs[..n], outs[..n]);
      StepRecords(Log(vs[..n], outs[..n]).value, n, vs[n], outs[n]);
    }
  }

  /** A log that failed before the last round stays failed. */
  lemma LogErrLast(vs: seq<Result<Verdict>>, outs: seq<Option<PyError>>)
    requires |outs| == |vs| && vs != []
    requires Log(vs[..|vs| - 1], outs[..|vs| - 1]).Err?
    ensures Log(vs, outs) == Log(vs[..|vs| - 1], outs[..|vs| - 1])
  {
  }

  /** A failed round ends the batch: nothing after it is logged. */
  lemma {:induction false} LogErrStays(vs: seq<Result<Verdict>>, outs: seq<Option<PyError>>, i: nat)
    requires |outs| == |vs| && i <= |vs|
    requires Log(vs[..i], outs[..i]).Err?
    decreases |vs|
    ensures Log(vs, outs) == Log(vs[..i], outs[..i])
  {
    if i < |vs| {
      var n := |vs| - 1;
      assert vs[..n][..i] == vs[..i] && outs[..n][..i] == outs[..i];
      LogErrStays(vs[..n], outs[..n], i);
      LogErrLast(vs, outs);
    } else {
      assert vs[..i] == vs && outs[..i] == outs;
    }
  }

  /** An entry without issues is handed on unchanged and logs nothing. */
  lemma TriageClean(cnt: nat, entry: Dict)
    requires Helpers.Inspection(entry) == Ok([])
    ensures Triage(cnt, entry) == Ok(Verdict(None, entry, true))
  {
  }

  /** The rounds of lines 116-133 on triages alone: a record without
      'id_scp' last, then a handed-on entry without issues whose
      `paper_process` call raises, makes the batch raise KeyError. */
  lemma SkippedThenFailed(vs: seq<Result<Verdict>>, outs: seq<Option<PyError>>, i: nat)
    requires |outs| == |vs| && i + 1 < |vs|
    requires Log(vs[..i + 1], outs[..i + 1]).Ok?
    requires vs[i].Ok? && !vs[i].value.process && vs[i].value.record.Some? && vs[i].value.record.value.idScp.None?
    requires vs[i + 1].Ok? && vs[i + 1].value.process && vs[i + 1].value.record.None? && outs[i + 1].Some?
    ensures Log(vs, outs) == Err(KeyError)
  {
    LogStep(vs, outs, i);
    var bad := Log(vs[..i + 1], outs[..i + 1]).value;
    assert bad[|bad| - 1] == vs[i].value.record.value;
    LogStep(vs, outs, i + 1);
    assert StepLog(bad, i + 1, vs[i + 1], outs[i + 1]) == Err(KeyError);
    LogErrStays(vs, outs, i + 2);
  }

  /** Round `j` extends the log of the rounds before it. */
  lemma LogStep(vs: seq<Result<Verdict>>, outs: seq<Option<PyError>>, j: nat)
    requires |outs| == |vs| && j < |vs|
    ensures var before := Log(vs[..j], outs[..j]);
            Log(vs[..j + 1], outs[..j + 1])
            == if before.Err? then before else StepLog(before.value, j, vs[j], outs[j])
  {
    assert vs[..j + 1][..j] == vs[..j] && outs[..j + 1][..j] == outs[..j];
    assert vs[..j + 1][j] == vs[j] && outs[..j + 1][j] == outs[j];
  }

  /** The hazard of line 123: an entry lacking both IDs is logged without
      'id_scp' and skipped; when the next entry is clean and `paper_process`
      raises for it, a KeyError escapes and the whole file is lost. */
  lemma EscapingKeyError(vs: seq<Result<Verdict>>, outs: seq<Option<PyError>>, i: nat, first: Dict, second: Dict)
    requires |outs| == |vs| && i + 1 < |vs|
    requires vs[i] == Triage(i, first) && vs[i + 1] == Triage(i + 1, second)
    requires Log(vs[..i + 1], outs[..i + 1]).Ok?
    requires Lookup(first, "dc:identifier").None? && Lookup(first, "eid").None?
    requires Helpers.Inspection(second) == Ok([]) && outs[i + 1].Some?
    ensures Log(vs, outs) == Err(KeyError)
  {
    LogStep(vs, outs, i);
    TriageNoIds(i, first);
    TriageClean(i + 1, second);
    SkippedThenFailed(vs, outs, i);
  }

  /** The triages of the first `n` entries, in order. */
  function Triages(entries: seq<Dict>, n: nat): (r: seq<Result<Verdict>>)
    requires n <= |entries|
    ensures |r| == n
  {
    if n == 0 then [] else Triages(entries, n - 1) + [Triage(n - 1, entries[n - 1])]
  }

  /** Only an entry handed to `paper_process` can raise; the call raises
      exactly when `paper_process` can raise on the entry, given what the
      stored paper the entry resolves to then holds (`held`), and what it
      raises is one of those exceptions. */
  predicate ErrorAgrees(store: Store, retrievalTime: string, t: Result<Verdict>, out: Option<PyError>, held: Papers.Held)
    requires Consistent(store)
  {
    (!Handed(t) ==> out.None?)
    && (Handed(t) ==> Raises(store, retrievalTime, t.value.entry, out, held))
  }

  /** `paper_process` on `entry` raises `out`: None exactly when it can
      raise nothing, given what the stored paper the entry resolves to
      holds (`held`), else one of the exceptions it can raise. */
  predicate Raises(store: Store, retrievalTime: string, entry: Dict, out: Option<PyError>, held: Papers.Held)
    requires Consistent(store)
  {
    var d := Helpers.Nullified(entry, Helpers.PaperNullTypes);
    var errs := Papers.HeaderErrors(store, d, Papers.HeaderOf(d), retrievalTime, held);
    (out.Some? <==> errs != {}) && (out.Some? ==> out.value in errs)
  }

  /** Every visited entry agrees with what `paper_process` can raise on
      it: `outs[k]` is what entry `k` raised, `helds[k]` what its stored
      paper held when it was visited. */
  ghost predicate AllAgree(store: Store, retrievalTime: string, vs: seq<Result<Verdict>>, outs: seq<Option<PyError>>,
                           helds: seq<Papers.Held>)
    requires Consistent(store)
  {
    |outs| == |vs| && |helds| == |vs|
    && forall k :: 0 <= k < |vs| ==> ErrorAgrees(store, retrievalTime, vs[k], outs[k], helds[k])
  }

  /** When `paper_process` cannot read a handed entry's header (links,
      Scopus ID, title), its exception is the one logged for the entry. */
  lemma HeaderErrorLogged(store: Store, retrievalTime: string, t: Result<Verdict>, out: Option<PyError>, held: Papers.Held)
    requires Consistent(store) && ErrorAgrees(store, retrievalTime, t, out, held) && Handed(t)
    ensures var h := Papers.HeaderOf(Helpers.Nullified(t.value.entry, Helpers.PaperNullTypes));
            h.Err? ==> out == Some(h.error)
  {
  }

  /** One round of the loop as statements. */
  method Visit(store: Store, cnt: nat, entry: Dict, bad: seq<BadPaper>, retrievalTime: string)
    returns (r: Result<seq<BadPaper>>, paper: Option<Paper>, ghost t: Result<Verdict>, ghost out: Option<PyError>,
             ghost held: Papers.Held)
    requires Consistent(store) && UniqueKeys(entry)
    modifies store.papers.Values, store.papersByDoi.Values, store.institutions.Values, store.authors.Values
    ensures t == Triage(cnt, entry)
    ensures r == StepLog(bad, cnt, t, out)
    ensures paper.Some? <==> Handed(t) && out.None?
    ensures ErrorAgrees(store, retrievalTime, t, out, held)
    ensures Handed(t) ==>
              var d := Helpers.Nullified(t.value.entry, Helpers.PaperNullTypes);
              var target := Papers.TargetOf(store, d, Papers.HeaderOf(d));
              (target == {} ==> held == Papers.Held(null, null, [], []))
              && forall q | q in target :: held == Papers.Held(old(q.source), old(q.fund), old(q.keywords), old(q.authors))
    ensures paper.Some? ==> t.Ok? && Returned(store, retrievalTime)(t.value.entry, paper.value)
  {
    out := None;
    paper := None;
    held := Papers.Held(null, null, [], []);
    var tr := TriageEntry(cnt, entry);
    t := tr;
    if tr.Err? {
      r := Err(tr.error);
    } else {
      var v := tr.value;
      ghost var found := Helpers.Inspection(entry).value;
      assert v == Classify(cnt, entry, found).value;
      ClassifyKeepsUnique(cnt, entry, found);
      var logged := bad + (if v.record.Some? then [v.record.value] else []);
      r := Ok(logged);
      if v.process {
        r, paper, out, held := Hand(store, cnt, v.entry, logged, retrievalTime);
      }
    }
  }

  /** The `paper_process` call of a round that hands its entry on: the
      paper it returns, or the exception it raises recorded after the
      records `logged`. */
  method Hand(store: Store, cnt: nat, entry: Dict, logged: seq<BadPaper>, retrievalTime: string)
    returns (r: Result<seq<BadPaper>>, paper: Option<Paper>, ghost out: Option<PyError>, ghost held: Papers.Held)
    requires Consistent(store) && UniqueKeys(entry)
    modifies store.papers.Values, store.papersByDoi.Values, store.institutions.Values, store.authors.Values
    ensures paper.Some? <==> out.None?
    ensures r == if out.Some? then OnError(logged, cnt, Helpers.Nullified(entry, Helpers.PaperNullTypes), out.value)
                 else Ok(logged)
    ensures Raises(store, retrievalTime, entry, out, held)
    ensures var d := Helpers.Nullified(entry, Helpers.PaperNullTypes);
            var target := Papers.TargetOf(store, d, Papers.HeaderOf(d));
            (target == {} ==> held == Papers.Held(null, null, [], []))
            && forall q | q in target :: held == Papers.Held(old(q.source), old(q.fund), old(q.keywords), old(q.authors))
    ensures paper.Some? ==> Papers.Yields(store, entry, retrievalTime, paper.value)
  {
    var p, _, h := Papers.PaperProcess(store, entry, retrievalTime);
    held := h;
    if p.Ok? {
      paper, out, r := Some(p.value), None, Ok(logged);
    } else {
      paper, out := None, Some(p.error);
      var d := Helpers.Nullify(entry, Helpers.PaperNullTypes);
      r := OnError(logged, cnt, d, p.error);
    }
  }

  /** What `paper_process` returns for an entry, as a relation between the
      entry and the paper. */
  ghost function Returned(store: Store, retrievalTime: string): (Dict, Paper) -> bool {
    (entry: Dict, p: Paper) => Consistent(store) && Papers.Yields(store, entry, retrievalTime, p)
  }

  /** The papers are those `paper_process` returned (`returned`), one per
      successful call, in entry order. */
  ghost predicate PapersFrom(vs: seq<Result<Verdict>>, outs: seq<Option<PyError>>, returned: (Dict, Paper) -> bool,
                             papers: seq<Paper>)
    requires |outs| == |vs|
    decreases |vs|
  {
    if vs == [] then papers == []
    else
      var n := |vs| - 1;
      if Handed(vs[n]) && outs[n].None? then
        papers != []
        && PapersFrom(vs[..n], outs[..n], returned, papers[..|papers| - 1])
        && returned(vs[n].value.entry, papers[|papers| - 1])
      else PapersFrom(vs[..n], outs[..n], returned, papers)
  }

  /** One more round keeps the papers those of the successful calls. */
  lemma PapersStep(vs: seq<Result<Verdict>>, outs: seq<Option<PyError>>, t: Result<Verdict>, out: Option<PyError>,
                   returned: (Dict, Paper) -> bool, papers: seq<Paper>, paper: Option<Paper>)
    requires |outs| == |vs| && PapersFrom(vs, outs, returned, papers)
    requires paper.Some? <==> Handed(t) && out.None?
    requires paper.Some? ==> t.Ok? && returned(t.value.entry, paper.value)
    ensures paper.Some? ==> PapersFrom(vs + [t], outs + [out], returned, papers + [paper.value])
    ensures paper.None? ==> PapersFrom(vs + [t], outs + [out], returned, papers)
  {
    var vs', outs' := vs + [t], outs + [out];
    assert vs'[..|vs|] == vs && outs'[..|vs|] == outs;
    assert vs'[|vs|] == t && outs'[|vs|] == out;
    var n := |vs'| - 1;
    assert n == |vs|;
    if paper.Some? {
      var papers' := papers + [paper.value];
      assert papers'[..|papers'| - 1] == papers && papers'[|papers'| - 1] == paper.value;
      assert Handed(vs'[n]) && outs'[n].None?;
      assert returned(vs'[n].value.entry, papers'[|papers'| - 1]);
      assert PapersFrom(vs', outs', returned, papers');
    } else {
      assert PapersFrom(vs', outs', returned, papers);
    }
  }

  /** Paper `j` is the one returned for entry `Succeeded(vs, outs)[j]`. */
  lemma {:induction false} PapersFromAt(vs: seq<Result<Verdict>>, outs: seq<Option<PyError>>,
                                        returned: (Dict, Paper) -> bool, papers: seq<Paper>)
    requires |outs| == |vs| && PapersFrom(vs, outs, returned, papers)
    decreases |vs|
    ensures var s := Succeeded(vs, outs);
            |papers| == |s|
            && forall j :: 0 <= j < |s| ==> s[j] < |vs| && vs[s[j]].Ok? && returned(vs[s[j]].value.entry, papers[j])
  {
    if vs != [] {
      var n := |vs| - 1;
      var s0 := Succeeded(vs[..n], outs[..n]);
      if Handed(vs[n]) && outs[n].None? {
        var front := papers[..|papers| - 1];
        PapersFromAt(vs[..n], outs[..n], returned, front);
        assert forall j :: 0 <= j < |s0| ==> vs[..n][s0[j]] == vs[s0[j]] && front[j] == papers[j];
      } else {
        PapersFromAt(vs[..n], outs[..n], returned, papers);
        assert forall j :: 0 <= j < |s0| ==> vs[..n][s0[j]] == vs[s0[j]];
      }
    }
  }

  /** One more round extends the log by its step, the successful calls by
      its own when it returned a paper, and keeps every header in agreement. */
  lemma RoundAppend(store: Store, retrievalTime: string, vs: seq<Result<Verdict>>, outs: seq<Option<PyError>>,
                    helds: seq<Papers.Held>, t: Result<Verdict>, out: Option<PyError>, held: Papers.Held, bad: seq<BadPaper>)
    requires Consistent(store) && |outs| == |vs| && |helds| == |vs|
    ensures Log(vs, outs) == Ok(bad) ==> Log(vs + [t], outs + [out]) == StepLog(bad, |vs|, t, out)
    ensures |Succeeded(vs + [t], outs + [out])| == |Succeeded(vs, outs)| + (if Handed(t) && out.None? then 1 else 0)
    ensures AllAgree(store, retrievalTime, vs, outs, helds) && ErrorAgrees(store, retrievalTime, t, out, held) ==>
              AllAgree(store, retrievalTime, vs + [t], outs + [out], helds + [held])
  {
    var vs', outs', helds' := vs + [t], outs + [out], helds + [held];
    assert vs'[..|vs|] == vs && outs'[..|vs|] == outs;
    assert vs'[|vs|] == t && outs'[|vs|] == out && helds'[|vs|] == held;
    assert forall k :: 0 <= k < |vs| ==> vs'[k] == vs[k] && outs'[k] == outs[k] && helds'[k] == helds[k];
  }

  /** One round of the loop of `file_process`: what the loop keeps holds
      with one more entry visited. */
  method Round(store: Store, entries: seq<Dict>, i: nat, bad: seq<BadPaper>, papers: seq<Paper>, retrievalTime: string,
               ghost vs: seq<Result<Verdict>>, ghost outs: seq<Option<PyError>>, ghost helds: seq<Papers.Held>)
    returns (failed: Option<PyError>, bad': seq<BadPaper>, papers': seq<Paper>,
             ghost vs': seq<Result<Verdict>>, ghost outs': seq<Option<PyError>>, ghost helds': seq<Papers.Held>)
    requires Consistent(store) && i < |entries| && UniqueKeys(entries[i])
    requires |vs| == i && |outs| == i && |helds| == i && vs == Triages(entries, i)
    requires AllAgree(store, retrievalTime, vs, outs, helds)
    requires Log(vs, outs) == Ok(bad) && PapersFrom(vs, outs, Returned(store, retrievalTime), papers)
    modifies store.papers.Values, store.papersByDoi.Values, store.institutions.Values, store.authors.Values
    ensures |vs'| == i + 1 && |outs'| == i + 1 && |helds'| == i + 1 && vs' == Triages(entries, i + 1)
    ensures AllAgree(store, retrievalTime, vs', outs', helds')
    ensures failed.None? ==> Log(vs', outs') == Ok(bad')
    ensures failed.Some? ==> Log(vs', outs') == Err(failed.value)
    ensures PapersFrom(vs', outs', Returned(store, retrievalTime), papers')
  {
    var step, paper, t, out, held := Visit(store, i, entries[i], bad, retrievalTime);
    RoundAppend(store, retrievalTime, vs, outs, helds, t, out, held, bad);
    PapersStep(vs, outs, t, out, Returned(store, retrievalTime), papers, paper);
    failed, bad', papers' := None, bad, papers;
    if step.Err? {
      failed := Some(step.error);
    } else {
      bad' := step.value;
    }
    if paper.Some? {
      papers' := papers + [paper.value];
    }
    vs', outs', helds' := vs + [t], outs + [out], helds + [held];
  }

  /** `file_process` on the entries of one loaded file: the problems
      report (None when no entry had a problem) and the papers. `vs` are
      the triages of the entries visited, `outs` what `paper_process`
      raised for each, `helds` what the stored paper each entry resolves to
      held when the entry was visited; a raised exception ends the loop at
      the last one. */
  method FileProcess(store: Store, entries: seq<Dict>, retrievalTime: string)
    returns (r: Result<FileReport>, ghost vs: seq<Result<Verdict>>, ghost outs: seq<Option<PyError>>,
             ghost helds: seq<Papers.Held>)
    requires Consistent(store)
    requires forall k :: 0 <= k < |entries| ==> UniqueKeys(entries[k])
    modifies store.papers.Values, store.papersByDoi.Values, store.institutions.Values, store.authors.Values
    ensures |outs| == |vs| <= |entries| && |helds| == |vs| && vs == Triages(entries, |vs|)
    ensures AllAgree(store, retrievalTime, vs, outs, helds)
    ensures r.Err? ==> Log(vs, outs) == Err(r.error)
    ensures r.Ok? ==>
              |vs| == |entries| && Log(vs, outs).Ok?
              && (r.value.problems.None? <==> Log(vs, outs).value == [])
              && (r.value.problems.Some? ==> r.value.problems.value == Log(vs, outs).value)
              && PapersFrom(vs, outs, Returned(store, retrievalTime), r.value.papers)
  {
    var bad: seq<BadPaper> := [];
    var papers: seq<Paper> := [];
    var failed: Option<PyError> := None;
    vs, outs, helds := [], [], [];
    var i := 0;
    while i < |entries| && failed.None?
      invariant 0 <= i <= |entries| && |vs| == i && |outs| == i && |helds| == i
      invariant vs == Triages(entries, i)
      invariant AllAgree(store, retrievalTime, vs, outs, helds)
      invariant failed.None? ==> Log(vs, outs) == Ok(bad)
      invariant failed.Some? ==> Log(vs, outs) == Err(failed.value)
      invariant PapersFrom(vs, outs, Returned(store, retrievalTime), papers)
    {
      failed, bad, papers, vs, outs, helds := Round(store, entries, i, bad, papers, retrievalTime, vs, outs, helds);
      i := i + 1;
    }
    if failed.Some? {
      r := Err(failed.value);
    } else {
      r := Ok(FileReport(if bad == [] then None else Some(bad), papers));
    }
  }
}
