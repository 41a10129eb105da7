/** `keyword_process`: the author keywords of a Scopus record, split,
    stripped and de-duplicated ignoring case, each resolved to the stored
    Keyword of that exact text or to a new one. */
module Keywords {
  import opened Wrappers
  import opened Py
  import PyStr
  import Helpers
  import opened Models

  /** `p` is a non-blank piece whose stripped text lower-cases to `Lower(l)`. */
  predicate Matches(p: string, l: string) {
    PyStr.Strip(p) != "" && PyStr.Lower(PyStr.Strip(p)) == PyStr.Lower(l)
  }

  /** The lower-cased forms of a list of terms. */
  function LowerSet(terms: seq<string>): set<string> {
    set t | t in terms :: PyStr.Lower(t)
  }

  /** The lower-cased forms of the non-blank stripped pieces. */
  function LowerTerms(pieces: seq<string>): set<string> {
    set p | p in pieces && PyStr.Strip(p) != "" :: PyStr.Lower(PyStr.Strip(p))
  }

  /** The terms the first loop of `keyword_process` collects from `pieces`:
      each piece is stripped, and kept when it is non-empty and its
      lower-cased form has not been kept before. */
  function Terms(pieces: seq<string>): seq<string>
    decreases |pieces|
  {
    if pieces == [] then []
    else
      var prev := Terms(pieces[..|pieces| - 1]);
      var t := PyStr.Strip(pieces[|pieces| - 1]);
      if t != "" && PyStr.Lower(t) !in LowerSet(prev) then prev + [t] else prev
  }

  /** The index of the first piece that matches `l` (`|pieces|` when none does). */
  function Pos(pieces: seq<string>, l: string): (r: nat)
    decreases |pieces|
    ensures r <= |pieces|
  {
    if pieces == [] then 0
    else if Matches(pieces[0], l) then 0
    else 1 + Pos(pieces[1..], l)
  }

  lemma {:induction false} PosSpec(pieces: seq<string>, l: string)
    decreases |pieces|
    ensures Pos(pieces, l) < |pieces| ==> Matches(pieces[Pos(pieces, l)], l)
    ensures forall j :: 0 <= j < Pos(pieces, l) ==> !Matches(pieces[j], l)
  {
    if pieces != [] && !Matches(pieces[0], l) {
      var t := pieces[1..];
      PosSpec(t, l);
      var q := Pos(t, l);
      assert Pos(pieces, l) == 1 + q;
      if q < |t| {
        assert pieces[1 + q] == t[q];
      }
      forall j | 0 < j < 1 + q ensures !Matches(pieces[j], l) {
        assert pieces[j] == t[j - 1];
      }
    }
  }

  /** A piece matches exactly the terms whose lower-cased form is among the pieces'. */
  lemma PosFound(pieces: seq<string>, l: string)
    ensures Pos(pieces, l) < |pieces| <==> PyStr.Lower(l) in LowerTerms(pieces)
  {
    PosSpec(pieces, l);
    if PyStr.Lower(l) in LowerTerms(pieces) {
      var p :| p in pieces && PyStr.Strip(p) != "" && PyStr.Lower(PyStr.Strip(p)) == PyStr.Lower(l);
      var j :| 0 <= j < |pieces| && pieces[j] == p;
      assert Matches(pieces[j], l);
    }
  }

  lemma {:induction false} PosAppend(pieces: seq<string>, p: string, l: string)
    decreases |pieces|
    ensures Pos(pieces, l) < |pieces| ==> Pos(pieces + [p], l) == Pos(pieces, l)
    ensures Pos(pieces, l) == |pieces| && Matches(p, l) ==> Pos(pieces + [p], l) == |pieces|
  {
    var q := pieces + [p];
    if pieces == [] {
      assert q[1..] == [];
    } else {
      assert q[0] == pieces[0] && q[1..] == pieces[1..] + [p];
      if !Matches(pieces[0], l) {
        PosAppend(pieces[1..], p, l);
      }
    }
  }

  lemma LowerTermsAppend(pieces: seq<string>, p: string)
    ensures LowerTerms(pieces + [p]) ==
            LowerTerms(pieces) + (if PyStr.Strip(p) != "" then {PyStr.Lower(PyStr.Strip(p))} else {})
  {
    var q := pieces + [p];
    forall x | x in q ensures x in pieces || x == p { }
  }

  lemma LowerSetAppend(terms: seq<string>, t: string)
    ensures LowerSet(terms + [t]) == LowerSet(terms) + {PyStr.Lower(t)}
  {
    var q := terms + [t];
    forall x | x in q ensures x in terms || x == t { }
  }

  /** One more piece adds its stripped text when that is new ignoring case. */
  lemma TermsAppend(init: seq<string>, p: string)
    ensures var prev := Terms(init);
            var t := PyStr.Strip(p);
            Terms(init + [p]) == if t != "" && PyStr.Lower(t) !in LowerSet(prev) then prev + [t] else prev
  {
    assert (init + [p])[..|init|] == init;
  }

  /** A term as the first loop keeps it: non-empty and stripped. */
  predicate Clean(t: string) {
    t != "" && PyStr.Strip(t) == t
  }

  /** The terms are non-empty and stripped. */
  lemma {:induction false} TermsStripped(pieces: seq<string>)
    decreases |pieces|
    ensures forall t | t in Terms(pieces) :: Clean(t)
  {
    if pieces != [] {
      var init := pieces[..|pieces| - 1];
      var p := pieces[|pieces| - 1];
      assert pieces == init + [p];
      TermsStripped(init);
      TermsAppend(init, p);
      var t := PyStr.Strip(p);
      if t != "" && PyStr.Lower(t) !in LowerSet(Terms(init)) {
        assert Clean(t) by { PyStr.StripIdempotent(p); }
      }
    }
  }

  /** The terms have exactly the lower-cased forms of the non-blank pieces. */
  lemma {:induction false} TermsLowers(pieces: seq<string>)
    decreases |pieces|
    ensures LowerSet(Terms(pieces)) == LowerTerms(pieces)
  {
    if pieces != [] {
      var init := pieces[..|pieces| - 1];
      var p := pieces[|pieces| - 1];
      assert pieces == init + [p];
      TermsLowers(init);
      TermsAppend(init, p);
      LowerTermsAppend(init, p);
      var prev := Terms(init);
      var t := PyStr.Strip(p);
      assert pieces == init + [p];
      if t == "" {
        assert LowerTerms(pieces) == LowerTerms(init);
      } else if PyStr.Lower(t) !in LowerSet(prev) {
        LowerSetAppend(prev, t);
        assert LowerSet(Terms(pieces)) == LowerSet(prev) + {PyStr.Lower(t)};
      } else {
        assert LowerTerms(pieces) == LowerTerms(init) + {PyStr.Lower(t)} == LowerTerms(init);
      }
    }
  }

  /** No two terms are equal ignoring case. */
  lemma {:induction false} TermsDistinct(pieces: seq<string>)
    decreases |pieces|
    ensures forall i, j :: 0 <= i < j < |Terms(pieces)| ==>
              PyStr.Lower(Terms(pieces)[i]) != PyStr.Lower(Terms(pieces)[j])
  {
    if pieces != [] {
      var init := pieces[..|pieces| - 1];
      var p := pieces[|pieces| - 1];
      assert pieces == init + [p];
      TermsDistinct(init);
      TermsAppend(init, p);
      var prev := Terms(init);
      var t := PyStr.Strip(p);
      if t != "" && PyStr.Lower(t) !in LowerSet(prev) {
        var r := prev + [t];
        forall i, j | 0 <= i < j < |r| ensures PyStr.Lower(r[i]) != PyStr.Lower(r[j]) {
          if j == |prev| {
            assert r[i] == prev[i] && r[i] in prev;
          } else {
            assert r[i] == prev[i] && r[j] == prev[j];
          }
        }
      }
    }
  }

  /** A piece appended after the first matches of the terms so far leaves
      those matches where they were. */
  lemma PrevPos(init: seq<string>, p: string)
    requires forall i :: 0 <= i < |Terms(init)| ==> Pos(init, Terms(init)[i]) < |init|
    ensures var prev, pieces := Terms(init), init + [p];
            forall i :: 0 <= i < |prev| ==>
              Pos(pieces, prev[i]) == Pos(init, prev[i]) < |init| && pieces[Pos(pieces, prev[i])] == init[Pos(init, prev[i])]
  {
    var prev := Terms(init);
    forall i | 0 <= i < |prev|
      ensures Pos(init + [p], prev[i]) == Pos(init, prev[i])
    {
      PosAppend(init, p, prev[i]);
    }
  }

  /** A term that is new ignoring case is first matched by the appended piece. */
  lemma NewTermPos(init: seq<string>, p: string)
    requires PyStr.Strip(p) != "" && PyStr.Lower(PyStr.Strip(p)) !in LowerSet(Terms(init))
    ensures Pos(init + [p], PyStr.Strip(p)) == |init|
  {
    var t := PyStr.Strip(p);
    TermsLowers(init);
    PosFound(init, t);
    assert Matches(p, t);
    PosAppend(init, p, t);
  }

  /** Each term is spelled as its first matching piece. */
  lemma {:induction false} TermsSpelled(pieces: seq<string>)
    decreases |pieces|
    ensures var r := Terms(pieces);
            forall i :: 0 <= i < |r| ==> Pos(pieces, r[i]) < |pieces| && PyStr.Strip(pieces[Pos(pieces, r[i])]) == r[i]
  {
    if pieces != [] {
      var init := pieces[..|pieces| - 1];
      var p := pieces[|pieces| - 1];
      assert pieces == init + [p];
      TermsSpelled(init);
      TermsAppend(init, p);
      PrevPos(init, p);
      var prev := Terms(init);
      var t := PyStr.Strip(p);
      if t != "" && PyStr.Lower(t) !in LowerSet(prev) {
        NewTermPos(init, p);
        var r := prev + [t];
        forall i | 0 <= i < |r|
          ensures Pos(pieces, r[i]) < |pieces| && PyStr.Strip(pieces[Pos(pieces, r[i])]) == r[i]
        {
          if i < |prev| { assert r[i] == prev[i]; }
        }
      }
    }
  }

  /** The terms come in the order of their first matching pieces. */
  lemma {:induction false} TermsOrdered(pieces: seq<string>)
    decreases |pieces|
    ensures var r := Terms(pieces);
            forall i, j :: 0 <= i < j < |r| ==> Pos(pieces, r[i]) < Pos(pieces, r[j])
  {
    if pieces != [] {
      var init := pieces[..|pieces| - 1];
      var p := pieces[|pieces| - 1];
      assert pieces == init + [p];
      TermsOrdered(init);
      TermsSpelled(init);
      TermsAppend(init, p);
      PrevPos(init, p);
      var prev := Terms(init);
      var t := PyStr.Strip(p);
      if t != "" && PyStr.Lower(t) !in LowerSet(prev) {
        NewTermPos(init, p);
        OrderedAppend(pieces, prev, t);
      } else {
        forall i, j | 0 <= i < j < |prev| ensures Pos(pieces, prev[i]) < Pos(pieces, prev[j]) {
          assert Pos(init, prev[i]) < Pos(init, prev[j]);
        }
      }
    }
  }

  /** A term placed after terms whose first matches all come before its own
      keeps the order. */
  lemma OrderedAppend(pieces: seq<string>, prev: seq<string>, t: string)
    requires forall i, j :: 0 <= i < j < |prev| ==> Pos(pieces, prev[i]) < Pos(pieces, prev[j])
    requires forall i :: 0 <= i < |prev| ==> Pos(pieces, prev[i]) < Pos(pieces, t)
    ensures var r := prev + [t];
            forall i, j :: 0 <= i < j < |r| ==> Pos(pieces, r[i]) < Pos(pieces, r[j])
  {
    var r := prev + [t];
    forall i, j | 0 <= i < j < |r| ensures Pos(pieces, r[i]) < Pos(pieces, r[j]) {
      assert r[i] == prev[i];
      if j < |prev| { assert r[j] == prev[j]; }
    }
  }

  /** Each term is spelled as its first matching piece, and the terms come in
      the order of those first pieces. */
  lemma TermsFirstSpelling(pieces: seq<string>)
    ensures var r := Terms(pieces);
            (forall i :: 0 <= i < |r| ==> Pos(pieces, r[i]) < |pieces|
                                           && PyStr.Strip(pieces[Pos(pieces, r[i])]) == r[i])
            && (forall i, j :: 0 <= i < j < |r| ==> Pos(pieces, r[i]) < Pos(pieces, r[j]))
  {
    TermsSpelled(pieces);
    TermsOrdered(pieces);
  }

  /** Terms that differ ignoring case are as many as their lower-cased forms. */
  lemma {:induction false} DistinctCount(r: seq<string>)
    requires forall i, j :: 0 <= i < j < |r| ==> PyStr.Lower(r[i]) != PyStr.Lower(r[j])
    decreases |r|
    ensures |LowerSet(r)| == |r|
  {
    if r != [] {
      var init := r[..|r| - 1];
      var t := r[|r| - 1];
      assert r == init + [t];
      DistinctCount(init);
      LowerSetAppend(init, t);
      assert PyStr.Lower(t) !in LowerSet(init) by {
        forall x | x in init ensures PyStr.Lower(x) != PyStr.Lower(t) {
          var i :| 0 <= i < |init| && init[i] == x;
          assert r[i] == x;
        }
      }
    }
  }

  /** There are as many terms as distinct lower-cased non-blank pieces. */
  lemma TermsCount(pieces: seq<string>)
    ensures |Terms(pieces)| == |LowerTerms(pieces)|
  {
    TermsDistinct(pieces);
    TermsLowers(pieces);
    DistinctCount(Terms(pieces));
  }

  /** What the first loop collects from a record, or the exception raised on
      the way: reading the field, calling `split` on a non-str, or splitting
      on an empty separator. */
  function KeywordTerms(data: Dict, separator: string): (r: Result<seq<string>>)
  {
    var raw :- Helpers.Get(Obj(data), "authkeywords", Null);
    if !Truthy(raw) then Ok([])
    else if !raw.Str? then Err(AttributeError)
    else
      var pieces :- PyStr.Split(raw.s, separator);
      Ok(Terms(pieces))
  }

  /** An absent, null or empty keyword field gives no keywords. */
  lemma KeywordTermsAbsent(data: Dict, separator: string)
    requires Lookup(data, "authkeywords").None? || Lookup(data, "authkeywords") == Some(Null)
             || Lookup(data, "authkeywords") == Some(Str(""))
    ensures KeywordTerms(data, separator) == Ok([])
  {
  }

  /** A str field is cut at each separator, and every piece counts. */
  lemma KeywordTermsOfStr(data: Dict, separator: string, s: string)
    requires Lookup(data, "authkeywords") == Some(Str(s)) && s != "" && separator != ""
    ensures KeywordTerms(data, separator) == Ok(Terms(PyStr.SplitOn(s, separator)))
    ensures PyStr.Join(PyStr.SplitOn(s, separator), separator) == s
  {
    PyStr.JoinSplit(s, separator);
  }

  /** One step of the first loop of `keyword_process`. */
  lemma CollectStep(pieces: seq<string>, i: nat, terms: seq<string>, t: string)
    requires i < |pieces| && terms == Terms(pieces[..i]) && t == PyStr.Strip(pieces[i])
    ensures Terms(pieces[..i + 1]) ==
            if t != "" && PyStr.Lower(t) !in LowerSet(terms) then terms + [t] else terms
    ensures LowerSet(terms + [t]) == LowerSet(terms) + {PyStr.Lower(t)}
  {
    var q := pieces[..i + 1];
    assert q[..i] == pieces[..i] && q[i] == pieces[i];
    LowerSetAppend(terms, t);
  }

  /** The first loop of `keyword_process`: the terms, in first-seen order,
      with the set of their lower-cased forms kept beside them. */
  method CollectTerms(pieces: seq<string>) returns (terms: seq<string>)
    ensures terms == Terms(pieces)
  {
    var uniqueKeys: set<string> := {};
    terms := [];
    for i := 0 to |pieces|
      invariant terms == Terms(pieces[..i])
      invariant uniqueKeys == LowerSet(terms)
    {
      var t := PyStr.Strip(pieces[i]);
      CollectStep(pieces, i, terms, t);
      if t != "" && PyStr.Lower(t) !in uniqueKeys {
        uniqueKeys := uniqueKeys + {PyStr.Lower(t)};
        terms := terms + [t];
      }
    }
    assert pieces[..|pieces|] == pieces;
  }

  /** Each term resolved to the stored Keyword of that exact text, or to a new one. */
  predicate Resolved(store: Store, terms: seq<string>, keywords: seq<Keyword>)
    reads keywords
  {
    |keywords| == |terms|
    && forall i :: 0 <= i < |terms| ==>
         keywords[i].keyword == terms[i]
         && (terms[i] in store.keywords ==> keywords[i] == store.keywords[terms[i]])
  }

  /** The second loop of `keyword_process`. */
  method ResolveKeywords(store: Store, terms: seq<string>) returns (keywords: seq<Keyword>)
    requires Consistent(store)
    ensures Resolved(store, terms, keywords)
    ensures forall i :: 0 <= i < |terms| && terms[i] !in store.keywords ==> fresh(keywords[i])
  {
    keywords := [];
    for i := 0 to |terms|
      invariant |keywords| == i
      invariant forall j :: 0 <= j < i ==>
                  keywords[j].keyword == terms[j]
                  && (terms[j] in store.keywords ==> keywords[j] == store.keywords[terms[j]])
                  && (terms[j] !in store.keywords ==> fresh(keywords[j]))
    {
      var k: Keyword;
      if terms[i] in store.keywords {
        k := store.keywords[terms[i]];
      } else {
        k := new Keyword(terms[i]);
      }
      keywords := keywords + [k];
      assert keywords[i] == k;
    }
  }

  /** `keyword_process`: one Keyword per term, in order; a term stored with
      exactly that text gives the stored object, any other a new one. */
  method KeywordProcess(store: Store, data: Dict, separator: string) returns (r: Result<seq<Keyword>>)
    requires Consistent(store)
    ensures r.Ok? <==> KeywordTerms(data, separator).Ok?
    ensures r.Err? ==> r.error == KeywordTerms(data, separator).error
    ensures r.Ok? ==> Resolved(store, KeywordTerms(data, separator).value, r.value)
    ensures r.Ok? ==> var terms := KeywordTerms(data, separator).value;
                      forall i :: 0 <= i < |terms| && terms[i] !in store.keywords ==> fresh(r.value[i])
  {
    var raw :- Helpers.Get(Obj(data), "authkeywords", Null);
    if !Truthy(raw) {
      return Ok([]);
    }
    if !raw.Str? {
      return Err(AttributeError);
    }
    var pieces :- PyStr.Split(raw.s, separator);
    var terms := CollectTerms(pieces);
    var keywords := ResolveKeywords(store, terms);
    return Ok(keywords);
  }
}
