/** The record helpers shared by every processor: country-alias folding,
    the field-presence inspector, unwrapping of Scopus wire values,
    null-sentinel normalisation and character filtering. */
module Helpers {
  import opened Wrappers
  import opened Py
  import PyStr

  // ================================================================ country_names

  /** The six country names that Scopus and the reference files spell differently. */
  const CountryAliases: map<string, string> := map[
    "Russian Federation" := "Russia",
    "USA" := "United States",
    "Great Britain" := "United Kingdom",
    "Vietnam" := "Viet Nam",
    "Zweden" := "Sweden",
    "Czech Republic" := "Czechia"
  ]

  /** `country_names(name)`: an alias is replaced by the canonical name, every
      other hashable value (None included) is returned as it is; a list or a
      dict cannot be looked up in the alias dict and raises TypeError. */
  function CountryNames(name: JsonVal): (r: Result<JsonVal>)
    ensures r.Err? <==> !Hashable(name)
    ensures r.Err? ==> r.error == TypeError
    ensures name.Str? && name.s in CountryAliases ==> r == Ok(Str(CountryAliases[name.s]))
    ensures Hashable(name) && !(name.Str? && name.s in CountryAliases) ==> r == Ok(name)
  {
    if !Hashable(name) then Err(TypeError)
    else if name.Str? && name.s in CountryAliases then Ok(Str(CountryAliases[name.s]))
    else Ok(name)
  }

  /** No canonical name is itself an alias, so folding twice is folding once. */
  lemma CountryNamesIdempotent(name: JsonVal)
    requires CountryNames(name).Ok?
    ensures CountryNames(CountryNames(name).value) == CountryNames(name)
  {
    if name.Str? && name.s in CountryAliases {
      assert CountryAliases.Values !! CountryAliases.Keys;
      assert CountryAliases[name.s] in CountryAliases.Values;
    }
  }

  /** Exactly the six aliases change. */
  lemma CountryNamesChanges(name: JsonVal)
    requires CountryNames(name).Ok?
    ensures CountryNames(name).value != name <==> name.Str? && name.s in CountryAliases.Keys
  {
  }

  // ================================================================ key_get

  /** What `key_get` returns: one value, or (with `many`) a set of values. */
  datatype Got = One(v: JsonVal) | Many(vs: set<JsonVal>)

  /** `{item['$'] for item in items}`: the first item that is not a dict with
      a '$' entry raises, and so does an unhashable '$' value. */
  function DollarSet(items: seq<JsonVal>): (r: Result<set<JsonVal>>)
    decreases |items|
    ensures r.Ok? <==> forall i :: 0 <= i < |items| ==>
                         GetItem(items[i], "$").Ok? && Hashable(GetItem(items[i], "$").value)
    ensures r.Ok? ==> forall x :: x in r.value <==>
                         exists i :: 0 <= i < |items| && GetItem(items[i], "$") == Ok(x)
  {
    if items == [] then Ok({})
    else
      var first :- GetItem(items[0], "$");
      if !Hashable(first) then Err(TypeError)
      else
        var rest :- DollarSet(items[1..]);
        assert forall i :: 0 < i < |items| ==> items[i] == items[1..][i - 1];
        Ok({first} + rest)
  }

  /** `key_get(data, key, many, default)`. A missing key (the KeyError is
      caught) or a None value gives `default`; a list gives its first item's
      '$' entry, or with `many` the set of all items' '$' entries; a dict
      gives its '$' entry; any other value is returned as it is. Only a dict
      can be subscripted by a str key, so other `data` raise TypeError. */
  function KeyGet(data: JsonVal, key: string, many: bool, default: JsonVal): (r: Result<Got>)
    ensures !data.Obj? ==> r == Err(TypeError)
    ensures data.Obj? && Lookup(data.fields, key) in {None, Some(Null)} ==> r == Ok(One(default))
    ensures data.Obj? && Lookup(data.fields, key).Some? ==>
      var x := Lookup(data.fields, key).value;
      (x.Obj? ==> r == (match GetItem(x, "$") case Ok(y) => Ok(One(y)) case Err(e) => Err(e)))
      && (x.Str? || x.Num? ==> r == Ok(One(x)))
      && (x.Arr? && !many && |x.items| == 0 ==> r == Err(IndexError))
      && (x.Arr? && !many && |x.items| > 0 ==>
            r == (match GetItem(x.items[0], "$") case Ok(y) => Ok(One(y)) case Err(e) => Err(e)))
      && (x.Arr? && many ==>
            r == (match DollarSet(x.items) case Ok(s) => Ok(Many(s)) case Err(e) => Err(e)))
  {
    if !data.Obj? then Err(TypeError)
    else
      match Lookup(data.fields, key)
      case None => Ok(One(default))
      case Some(x) =>
        match x
        case Null => Ok(One(default))
        case Arr(items) =>
          if !many then
            var first :- GetIndex(x, 0);
            var y :- GetItem(first, "$");
            Ok(One(y))
          else
            var s :- DollarSet(items);
            Ok(Many(s))
        case Obj(_) =>
          var y :- GetItem(x, "$");
          Ok(One(y))
        case _ => Ok(One(x))
  }

  /** `key_get` with `many=False`: always a single value. */
  function Get(data: JsonVal, key: string, default: JsonVal): (r: Result<JsonVal>)
    ensures r.Ok? <==> KeyGet(data, key, false, default).Ok?
    ensures r.Ok? ==> KeyGet(data, key, false, default) == Ok(One(r.value))
    ensures r.Err? ==> KeyGet(data, key, false, default) == Err(r.error)
  {
    match KeyGet(data, key, false, default)
    case Ok(g) => (match g case One(v) => Ok(v) case Many(_) => Ok(Null))
    case Err(e) => Err(e)
  }

  /** The three shapes in which the Scopus API delivers a value. */
  datatype Wire = Bare | Wrapped | Listed

  /** How the API writes `v` in each shape: `v`, `{'$': v}`, `[{'$': v}]`. */
  function Encode(v: JsonVal, shape: Wire): JsonVal {
    match shape
    case Bare => v
    case Wrapped => Obj([("$", v)])
    case Listed => Arr([Obj([("$", v)])])
  }

  /** `key_get` unwraps every wire shape back to the value. A bare value must
      not itself look like a wrapper (a list or a dict), nor be None. */
  lemma KeyGetDecodesWire(d: Dict, key: string, v: JsonVal, shape: Wire, default: JsonVal)
    requires Lookup(d, key) == Some(Encode(v, shape))
    requires shape == Bare ==> v.Str? || v.Num?
    ensures KeyGet(Obj(d), key, false, default) == Ok(One(v))
  {
    assert Lookup([("$", v)], "$") == Some(v);
  }

  /** With `many`, a list of wrapped values gives the set of those values. */
  lemma KeyGetManyDecodesWire(d: Dict, key: string, vs: seq<JsonVal>, default: JsonVal)
    requires forall i :: 0 <= i < |vs| ==> Hashable(vs[i])
    requires Lookup(d, key) == Some(Arr(seq(|vs|, i requires 0 <= i < |vs| => Encode(vs[i], Wrapped))))
    ensures KeyGet(Obj(d), key, true, default) == Ok(Many(set i | 0 <= i < |vs| :: vs[i]))
  {
    var items := seq(|vs|, i requires 0 <= i < |vs| => Encode(vs[i], Wrapped));
    forall i | 0 <= i < |items| ensures GetItem(items[i], "$") == Ok(vs[i]) {
      assert Lookup([("$", vs[i])], "$") == Some(vs[i]);
    }
    var s := DollarSet(items);
    assert s.Ok?;
    assert s.value == set i | 0 <= i < |vs| :: vs[i];
  }

  /** A missing key and a None value both give the default. */
  lemma KeyGetDefault(d: Dict, key: string, many: bool, default: JsonVal)
    requires Lookup(d, key).None? || Lookup(d, key) == Some(Null)
    ensures KeyGet(Obj(d), key, many, default) == Ok(One(default))
  {
  }

  // ================================================================ nullify

  /** The default `null_types`: None, '', ' ', '-' and '#N/A'. */
  const NullTypes: seq<JsonVal> := [Null, Str(""), Str(" "), Str("-"), Str("#N/A")]

  /** The `null_types` that `paper_process` uses: the defaults and 'undefined'. */
  const PaperNullTypes: seq<JsonVal> := NullTypes + [Str("undefined")]

  /** The dict after `nullify`: every value in `nullTypes` is None, every
      other entry is unchanged. */
  function Nullified(d: Dict, nullTypes: seq<JsonVal>): (r: Dict)
  {
    seq(|d|, i requires 0 <= i < |d| => if d[i].1 in nullTypes then (d[i].0, Null) else d[i])
  }

  /** In a dict with unique keys, `d[k]` is the value stored at k's position. */
  lemma {:induction false} LookupAt(d: Dict, i: nat)
    requires UniqueKeys(d) && i < |d|
    decreases |d|
    ensures Lookup(d, d[i].0) == Some(d[i].1)
  {
    if i > 0 {
      assert d[1..][i - 1] == d[i];
      LookupAt(d[1..], i - 1);
    }
  }

  lemma UniqueTail(d: Dict)
    requires UniqueKeys(d) && d != []
    ensures UniqueKeys(d[1..])
  {
    var rest := d[1..];
    forall a, b | 0 <= a < b < |rest| ensures rest[a].0 != rest[b].0 {
      assert rest[a] == d[a + 1] && rest[b] == d[b + 1];
    }
  }

  lemma UpdateCons<T>(d: seq<T>, i: nat, x: T)
    requires 0 < i < |d|
    ensures d[i := x] == [d[0]] + d[1..][i - 1 := x]
  {
  }

  /** In a dict with unique keys, `d[k] = v` replaces the value at k's position. */
  lemma {:induction false} SetItemAt(d: Dict, i: nat, v: JsonVal)
    requires UniqueKeys(d) && i < |d|
    decreases |d|
    ensures SetItem(d, d[i].0, v) == d[i := (d[i].0, v)]
  {
    var k := d[i].0;
    var rest := d[1..];
    if i > 0 {
      assert d[0].0 != k;
      assert rest[i - 1] == d[i];
      UniqueTail(d);
      SetItemAt(rest, i - 1, v);
      assert SetItem(d, k, v) == [d[0]] + SetItem(rest, k, v);
      UpdateCons(d, i, (k, v));
    } else {
      assert SetItem(d, k, v) == [(k, v)] + rest;
      assert d[i := (k, v)] == [(k, v)] + rest;
    }
  }

  /** `nullify(data, null_types)`: the loop over the keys that sets each
      null-looking value to None. The dict is returned rather than updated
      in place; the callers continue with the returned dict. */
  method Nullify(data: Dict, nullTypes: seq<JsonVal>) returns (r: Dict)
    requires UniqueKeys(data)
    ensures r == Nullified(data, nullTypes)
  {
    r := data;
    var i := 0;
    while i < |data|
      invariant 0 <= i <= |data|
      invariant |r| == |data|
      invariant forall j :: 0 <= j < |data| ==> r[j].0 == data[j].0
      invariant forall j :: 0 <= j < i ==> r[j] == Nullified(data, nullTypes)[j]
      invariant forall j :: i <= j < |data| ==> r[j] == data[j]
    {
      var key := data[i].0;
      assert UniqueKeys(r) by {
        forall a, b | 0 <= a < b < |r| ensures r[a].0 != r[b].0 {
          assert r[a].0 == data[a].0 && r[b].0 == data[b].0;
        }
      }
      LookupAt(r, i);
      var value := Lookup(r, key).value;
      if value in nullTypes {
        SetItemAt(r, i, Null);
        r := SetItem(r, key, Null);
      }
      i := i + 1;
    }
  }

  /** `nullify` keeps the keys and their order. */
  lemma NullifiedKeys(d: Dict, nullTypes: seq<JsonVal>)
    ensures Keys(Nullified(d, nullTypes)) == Keys(d)
  {
  }

  /** After `nullify`, a key holds None if its value was null-looking, and
      its old value otherwise. */
  lemma NullifiedLookup(d: Dict, nullTypes: seq<JsonVal>, k: string)
    requires UniqueKeys(d)
    ensures match Lookup(d, k)
            case None => Lookup(Nullified(d, nullTypes), k).None?
            case Some(v) => Lookup(Nullified(d, nullTypes), k) == Some(if v in nullTypes then Null else v)
  {
    var n := Nullified(d, nullTypes);
    assert Keys(n) == Keys(d);
    assert UniqueKeys(n) by {
      forall a, b | 0 <= a < b < |n| ensures n[a].0 != n[b].0 {
        assert n[a].0 == d[a].0 && n[b].0 == d[b].0;
      }
    }
    if Lookup(d, k).Some? {
      var i :| 0 <= i < |d| && Keys(d)[i] == k;
      LookupAt(d, i);
      LookupAt(n, i);
    }
  }

  /** Applying `nullify` twice equals applying it once. */
  lemma NullifiedIdempotent(d: Dict, nullTypes: seq<JsonVal>)
    ensures Nullified(Nullified(d, nullTypes), nullTypes) == Nullified(d, nullTypes)
  {
  }

  // ================================================================ strip

  /** The default `accepted_chars`: the characters of an ISSN or ISBN. */
  const IssnChars: string := "0123456789xX"

  /** `''.join(c for c in s if c in accepted)`. */
  function KeepChars(s: string, accepted: string): (r: string)
    decreases |s|
    ensures |r| <= |s|
    ensures forall c :: c in r ==> c in accepted
  {
    if s == [] then ""
    else
      assert s == [s[0]] + s[1..];
      (if s[0] in accepted then [s[0]] else "") + KeepChars(s[1..], accepted)
  }

  /** The filter keeps every accepted character as often as the input has
      it. */
  lemma {:induction false} KeepCharsCounts(s: string, accepted: string)
    decreases |s|
    ensures forall c :: c in accepted ==> multiset(KeepChars(s, accepted))[c] == multiset(s)[c]
  {
    if s != [] {
      assert s == [s[0]] + s[1..];
      KeepCharsCounts(s[1..], accepted);
      var head := if s[0] in accepted then [s[0]] else "";
      assert KeepChars(s, accepted) == head + KeepChars(s[1..], accepted);
      assert multiset(s) == multiset([s[0]]) + multiset(s[1..]);
      assert multiset(KeepChars(s, accepted)) == multiset(head) + multiset(KeepChars(s[1..], accepted));
    }
  }

  /** A string made of accepted characters passes through the filter unchanged. */
  lemma {:induction false} KeepCharsAccepted(s: string, accepted: string)
    requires forall c :: c in s ==> c in accepted
    decreases |s|
    ensures KeepChars(s, accepted) == s
  {
    if s != [] {
      assert s == [s[0]] + s[1..];
      KeepCharsAccepted(s[1..], accepted);
    }
  }

  /** The filter keeps the order of the characters: filtering a
      concatenation filters each part, and a single character is kept
      exactly when it is accepted. */
  lemma {:induction false} KeepCharsAppend(s: string, t: string, accepted: string)
    decreases |s|
    ensures KeepChars(s + t, accepted) == KeepChars(s, accepted) + KeepChars(t, accepted)
    ensures |s| == 1 ==> KeepChars(s, accepted) == if s[0] in accepted then s else ""
  {
    if s == [] {
      assert s + t == t;
      assert KeepChars(s, accepted) == [];
    } else {
      var head := if s[0] in accepted then [s[0]] else "";
      var x, y := KeepChars(s[1..], accepted), KeepChars(t, accepted);
      assert (s + t)[0] == s[0] && (s + t)[1..] == s[1..] + t;
      assert KeepChars(s + t, accepted) == head + KeepChars(s[1..] + t, accepted);
      assert KeepChars(s, accepted) == head + x;
      KeepCharsAppend(s[1..], t, accepted);
      assert head + (x + y) == (head + x) + y;
      if |s| == 1 {
        assert s[1..] == [];
      }
    }
  }

  /** `strip(string, accepted_chars, max_len)`: a falsy value is returned
      unchanged; otherwise the str is stripped of whitespace, filtered to
      the accepted characters (all are accepted when `accepted_chars` is
      empty) and cut to `max_len` when `max_len` is non-zero. A truthy value
      that is not a str has no `.strip` and raises AttributeError. */
  function Strip(v: JsonVal, accepted: string, maxLen: int): (r: Result<JsonVal>)
    ensures !Truthy(v) ==> r == Ok(v)
    ensures Truthy(v) && !v.Str? ==> r == Err(AttributeError)
    ensures v.Str? ==> r.Ok? && r.value.Str?
    ensures v.Str? && v.s != "" && accepted != "" ==> forall c :: c in r.value.s ==> c in accepted
    ensures v.Str? && maxLen > 0 ==> |r.value.s| <= maxLen
    ensures v.Str? && v.s != "" && accepted == "" ==>
      r == Ok(Str(if maxLen != 0 then PyStr.SliceTo(PyStr.Strip(v.s), maxLen) else PyStr.Strip(v.s)))
    ensures v.Str? && v.s != "" && accepted != "" && maxLen == 0 ==>
      forall c :: c in accepted ==> multiset(r.value.s)[c] == multiset(PyStr.Strip(v.s))[c]
  {
    if !Truthy(v) then Ok(v)
    else if !v.Str? then Err(AttributeError)
    else
      var t := PyStr.Strip(v.s);
      KeepCharsCounts(t, accepted);
      var kept := if accepted != "" then KeepChars(t, accepted) else t;
      Ok(Str(if maxLen != 0 then PyStr.SliceTo(kept, maxLen) else kept))
  }

  /** With a non-empty `accepted_chars`, the result of a str is the
      accepted characters of the stripped str, in order, cut to `max_len`:
      a prefix of them, as long as `max_len` allows when it is positive,
      all of them when it is 0, and all but the last `-max_len` when it is
      negative. */
  lemma StripFiltered(v: JsonVal, accepted: string, maxLen: int)
    requires v.Str? && v.s != "" && accepted != ""
    ensures var kept := KeepChars(PyStr.Strip(v.s), accepted);
            var r := Strip(v, accepted, maxLen);
            && r.Ok? && r.value.Str? && |r.value.s| <= |kept| && r.value.s == kept[..|r.value.s|]
            && (maxLen == 0 ==> r.value.s == kept)
            && (maxLen > 0 ==> |r.value.s| == if maxLen < |kept| then maxLen else |kept|)
            && (maxLen < 0 ==> |r.value.s| == if -maxLen < |kept| then |kept| + maxLen else 0)
  {
  }

  /** A str without whitespace is only filtered and cut. */
  lemma StripUnpadded(s: string, accepted: string, maxLen: int)
    requires s != "" && accepted != "" && PyStr.NoSpace(s)
    ensures Strip(Str(s), accepted, maxLen) == Ok(Str(if maxLen != 0 then PyStr.SliceTo(KeepChars(s, accepted), maxLen) else KeepChars(s, accepted)))
  {
    PyStr.StripNoSpace(s);
  }

  /** A rejected character between two accepted runs is dropped, and the
      runs are kept in order. */
  lemma KeepCharsDrop(a: string, b: string, accepted: string, c: char)
    requires forall x :: x in a ==> x in accepted
    requires forall x :: x in b ==> x in accepted
    requires c !in accepted
    ensures KeepChars(a + [c] + b, accepted) == a + b
  {
    var rest := [c] + b;
    assert a + [c] + b == a + rest;
    KeepCharsAppend(a, rest, accepted);
    KeepCharsAppend([c], b, accepted);
    KeepCharsAccepted(a, accepted);
    KeepCharsAccepted(b, accepted);
    var dropped := KeepChars([c], accepted);
    assert dropped == [];
    assert KeepChars(rest, accepted) == dropped + b == b;
  }

  /** The hyphen of an ISSN is not among the default characters. */
  lemma DashRejected()
    ensures '-' !in IssnChars
  {
  }

  /** An ISSN written with a hyphen, such as "1234-567X", keeps its eight
      characters in order under the default filter and `max_len` 8. */
  lemma IssnDigitsKept(a: string, b: string)
    requires forall c :: c in a ==> c in IssnChars
    requires forall c :: c in b ==> c in IssnChars
    requires a != [] && |a| + |b| <= 8
    ensures Strip(Str(a + "-" + b), IssnChars, 8) == Ok(Str(a + b))
  {
    var s := a + "-" + b;
    IssnCharsNoSpace();
    assert PyStr.NoSpace(s) by {
      forall k | 0 <= k < |s| ensures !PyStr.IsSpace(s[k]) {
        if k < |a| { assert s[k] == a[k]; }
        else if k > |a| { assert s[k] == b[k - |a| - 1]; }
      }
    }
    StripUnpadded(s, IssnChars, 8);
    DashRejected();
    KeepCharsDrop(a, b, IssnChars, '-');
    assert PyStr.SliceTo(a + b, 8) == a + b;
  }

  /** With a filter that keeps no whitespace, as the default ISSN filter, and
      a non-negative `max_len`, `strip` is idempotent. */
  lemma StripIdempotent(v: JsonVal, accepted: string, maxLen: int)
    requires forall c :: c in accepted ==> !PyStr.IsSpace(c)
    requires accepted != "" && maxLen >= 0
    requires Strip(v, accepted, maxLen).Ok?
    ensures Strip(Strip(v, accepted, maxLen).value, accepted, maxLen) == Strip(v, accepted, maxLen)
  {
    var r := Strip(v, accepted, maxLen).value;
    if Truthy(v) && Truthy(r) {
      var s := r.s;
      assert forall c :: c in s ==> c in accepted;
      assert forall k :: 0 <= k < |s| ==> s[k] in s;
      assert PyStr.NoSpace(s);
      PyStr.StripNoSpace(s);
      KeepCharsAccepted(s, accepted);
      if maxLen != 0 {
        assert |s| <= maxLen;
        assert PyStr.SliceTo(s, maxLen) == s;
      }
    }
  }

  /** The ISSN filter keeps no whitespace. */
  lemma IssnCharsNoSpace()
    ensures forall c :: c in IssnChars ==> !PyStr.IsSpace(c)
  {
  }

  // ================================================================ data_inspector

  /** The first-level keys every Scopus search entry should have. */
  const FirstLevelKeys: seq<string> := [
    "source-id", "prism:publicationName", "prism:coverDate", "dc:identifier",
    "eid", "dc:title", "subtype", "author-count", "openaccess",
    "citedby-count", "link", "author", "affiliation"
  ]

  const AuthorKeys: seq<string> := ["authid", "@seq", "afid"]
  const AffiliationKeys: seq<string> := ["afid", "affilname"]

  predicate NoDup(s: seq<string>) {
    forall i, j :: 0 <= i < j < |s| ==> s[i] != s[j]
  }

  /** The keys of `keys` that `d` lacks, in the order of `keys`. */
  function MissingKeys(d: Dict, keys: seq<string>): seq<string>
    decreases |keys|
  {
    if keys == [] then []
    else
      var last := keys[|keys| - 1];
      MissingKeys(d, keys[..|keys| - 1]) + (if last in Keys(d) then [] else [last])
  }

  /** The keys are checked from the first one on. */
  lemma {:induction false} MissingKeysCons(d: Dict, keys: seq<string>)
    requires keys != []
    decreases |keys|
    ensures MissingKeys(d, keys) == (if keys[0] in Keys(d) then [] else [keys[0]]) + MissingKeys(d, keys[1..])
  {
    var n := |keys| - 1;
    if n > 0 {
      MissingKeysCons(d, keys[..n]);
      assert keys[..n][1..] == keys[1..][..n - 1];
      assert keys[..n][0] == keys[0] && keys[1..][n - 1] == keys[n];
    }
  }

  /** A key is reported missing exactly when it is listed and absent. */
  lemma {:induction false} MissingKeysMembers(d: Dict, keys: seq<string>)
    decreases |keys|
    ensures forall k :: k in MissingKeys(d, keys) <==> k in keys && k !in Keys(d)
  {
    if keys != [] {
      MissingKeysMembers(d, keys[1..]);
      MissingKeysCons(d, keys);
      assert keys == [keys[0]] + keys[1..];
    }
  }

  /** Each missing key is reported once when the list has no repeats. */
  lemma {:induction false} MissingKeysNoDup(d: Dict, keys: seq<string>)
    requires NoDup(keys)
    decreases |keys|
    ensures NoDup(MissingKeys(d, keys))
  {
    if keys != [] {
      var rest := keys[1..];
      assert NoDup(rest) by {
        forall i, j | 0 <= i < j < |rest| ensures rest[i] != rest[j] {
          assert rest[i] == keys[i + 1] && rest[j] == keys[j + 1];
        }
      }
      MissingKeysNoDup(d, rest);
      MissingKeysMembers(d, rest);
      MissingKeysCons(d, keys);
      assert keys[0] !in rest by {
        forall j | 0 <= j < |rest| ensures rest[j] != keys[0] {
          assert rest[j] == keys[j + 1];
        }
      }
    }
  }

  /** `all(link['@ref'] != 'scopus' for link in links)`, which stops at the
      first scopus link. */
  function NoScopusLink(links: seq<JsonVal>): (r: Result<bool>)
    decreases |links|
    ensures r == Ok(true) ==> forall i :: 0 <= i < |links| ==>
                                GetItem(links[i], "@ref").Ok? && GetItem(links[i], "@ref").value != Str("scopus")
    ensures r == Ok(false) ==> exists i :: 0 <= i < |links| && GetItem(links[i], "@ref") == Ok(Str("scopus"))
    ensures (forall i :: 0 <= i < |links| ==> GetItem(links[i], "@ref").Ok?) ==> r.Ok?
  {
    if links == [] then Ok(true)
    else
      var ref :- GetItem(links[0], "@ref");
      if ref == Str("scopus") then Ok(false)
      else
        assert forall i :: 0 < i < |links| ==> links[i] == links[1..][i - 1];
        NoScopusLink(links[1..])
  }

  /** Every element of `s` starts with `prefix`. */
  predicate AllTagged(prefix: string, s: seq<string>) {
    forall x :: x in s ==> prefix <= x
  }

  /** `prefix + k` for each `k` of `ks`, in order. */
  function Tag(prefix: string, ks: seq<string>): seq<string>
    decreases |ks|
  {
    if ks == [] then [] else [prefix + ks[0]] + Tag(prefix, ks[1..])
  }

  /** `'prefix' + key` for each key of `keys` that `entry` lacks (`key not in
      entry`, which for a str entry is a substring test). */
  function EntryIssues(entry: JsonVal, prefix: string, keys: seq<string>): (r: Result<seq<string>>)
    decreases |keys|
    ensures r.Ok? ==> AllTagged(prefix, r.value)
  {
    if keys == [] then Ok([])
    else
      var has := Contains(entry, keys[0]);
      if has.Err? then Err(has.error)
      else
        var rest := EntryIssues(entry, prefix, keys[1..]);
        if rest.Err? then rest
        else
          assert prefix <= prefix + keys[0];
          Ok((if has.value then [] else [prefix + keys[0]]) + rest.value)
  }

  /** For a dict entry, one issue per key it lacks, in key order; so two
      entries lacking the same key give that issue twice. */
  lemma {:induction false} EntryIssuesOfDict(d: Dict, prefix: string, keys: seq<string>)
    decreases |keys|
    ensures EntryIssues(Obj(d), prefix, keys) == Ok(Tag(prefix, MissingKeys(d, keys)))
  {
    if keys != [] {
      EntryIssuesOfDict(d, prefix, keys[1..]);
      MissingKeysCons(d, keys);
      var m := MissingKeys(d, keys[1..]);
      assert Contains(Obj(d), keys[0]) == Ok(keys[0] in Keys(d));
      assert ([keys[0]] + m)[1..] == m;
      if keys[0] in Keys(d) {
        assert [] + m == m;
        assert [] + Tag(prefix, m) == Tag(prefix, m);
      } else {
        assert Tag(prefix, [keys[0]] + m) == [prefix + keys[0]] + Tag(prefix, m);
      }
    }
  }

  /** The issues of every entry of a list, in order. */
  function ListIssues(entries: seq<JsonVal>, prefix: string, keys: seq<string>): (r: Result<seq<string>>)
    decreases |entries|
    ensures r.Ok? ==> AllTagged(prefix, r.value)
  {
    if entries == [] then Ok([])
    else
      var first := EntryIssues(entries[0], prefix, keys);
      if first.Err? then first
      else
        var rest := ListIssues(entries[1..], prefix, keys);
        if rest.Err? then rest
        else Ok(first.value + rest.value)
  }

  /** 'paper url' when 'link' is present and no link is the scopus one. */
  function LinkIssues(data: Dict): Result<seq<string>> {
    match Lookup(data, "link")
    case None => Ok([])
    case Some(v) =>
      var links :- Iter(v);
      var none :- NoScopusLink(links);
      Ok(if none then ["paper url"] else [])
  }

  /** The second-level issues of the list under `field`, when it is present. */
  function SubIssues(data: Dict, field: string, prefix: string, keys: seq<string>): (r: Result<seq<string>>)
    ensures r.Ok? ==> AllTagged(prefix, r.value)
  {
    match Lookup(data, field)
    case None => Ok([])
    case Some(v) =>
      var entries :- Iter(v);
      ListIssues(entries, prefix, keys)
  }

  /** 'author-count' when it is present but has no truthy '$' entry. */
  function AuthorCountIssues(data: Dict): Result<seq<string>> {
    match Lookup(data, "author-count")
    case None => Ok([])
    case Some(v) =>
      var has :- Contains(v, "$");
      if !has then Ok(["author-count"])
      else
        var n :- GetItem(v, "$");
        Ok(if Truthy(n) then [] else ["author-count"])
  }

  /** `acc` followed by the issues still to come, or the error they raise. */
  function Prepend(acc: seq<string>, r: Result<seq<string>>): Result<seq<string>> {
    if r.Ok? then Ok(acc + r.value) else r
  }

  /** The issues of one stage followed by those of the next; a stage that
      raises ends the inspection with its error. */
  function Then(a: Result<seq<string>>, b: Result<seq<string>>): Result<seq<string>> {
    if a.Err? then a else Prepend(a.value, b)
  }

  /** What `data_inspector` returns (or raises) for an entry: the stages in
      the order the source runs them. */
  function Inspection(data: Dict): Result<seq<string>> {
    Prepend(MissingKeys(data, FirstLevelKeys),
      Then(LinkIssues(data),
        Then(SubIssues(data, "author", "author:", AuthorKeys),
          Then(SubIssues(data, "affiliation", "affiliation:", AffiliationKeys),
            AuthorCountIssues(data)))))
  }

  /** A stage that raises ends the inspection with its error. */
  lemma PrependThenErr(acc: seq<string>, a: Result<seq<string>>, b: Result<seq<string>>)
    requires a.Err?
    ensures Prepend(acc, Then(a, b)) == a == Prepend(acc, a)
  {
  }

  /** Appending issues other than `x` does not change whether `x` is listed. */
  lemma NotAdded(s: seq<string>, t: seq<string>, x: string)
    requires x !in t
    ensures x in s + t <==> x in s
  {
  }

  /** Completing a stage moves its issues into the accumulated list. */
  lemma PrependThen(acc: seq<string>, a: Result<seq<string>>, b: Result<seq<string>>)
    requires a.Ok?
    ensures Prepend(acc, Then(a, b)) == Prepend(acc + a.value, b)
  {
    if b.Ok? {
      assert acc + (a.value + b.value) == (acc + a.value) + b.value;
    }
  }

  lemma PrependNothing(r: Result<seq<string>>)
    ensures Prepend([], r) == r
  {
    if r.Ok? {
      assert [] + r.value == r.value;
    }
  }

  /** One step of the inner loop: the next key is checked and reported. */
  lemma EntryIssuesStep(entry: JsonVal, prefix: string, keys: seq<string>, acc: seq<string>)
    requires |keys| > 0 && Contains(entry, keys[0]).Ok?
    ensures Prepend(acc, EntryIssues(entry, prefix, keys))
         == Prepend(acc + (if Contains(entry, keys[0]).value then [] else [prefix + keys[0]]),
                    EntryIssues(entry, prefix, keys[1..]))
  {
    var t := if Contains(entry, keys[0]).value then [] else [prefix + keys[0]];
    var rest := EntryIssues(entry, prefix, keys[1..]);
    if rest.Ok? {
      assert acc + (t + rest.value) == (acc + t) + rest.value;
    }
  }

  /** One step of the outer loop: the next entry's issues are reported. */
  lemma ListIssuesStep(entries: seq<JsonVal>, prefix: string, keys: seq<string>, acc: seq<string>)
    requires |entries| > 0 && EntryIssues(entries[0], prefix, keys).Ok?
    ensures Prepend(acc, ListIssues(entries, prefix, keys))
         == Prepend(acc + EntryIssues(entries[0], prefix, keys).value, ListIssues(entries[1..], prefix, keys))
  {
    var t := EntryIssues(entries[0], prefix, keys).value;
    var rest := ListIssues(entries[1..], prefix, keys);
    if rest.Ok? {
      assert acc + (t + rest.value) == (acc + t) + rest.value;
    }
  }

  /** The inner loop of `data_inspector`: the keys one entry lacks. */
  method CheckEntry(entry: JsonVal, prefix: string, keys: seq<string>) returns (r: Result<seq<string>>)
    ensures r == EntryIssues(entry, prefix, keys)
  {
    var issues: seq<string> := [];
    var j := 0;
    assert keys[0..] == keys;
    PrependNothing(EntryIssues(entry, prefix, keys));
    while j < |keys|
      invariant 0 <= j <= |keys|
      invariant EntryIssues(entry, prefix, keys) == Prepend(issues, EntryIssues(entry, prefix, keys[j..]))
    {
      assert keys[j..][1..] == keys[j + 1..];
      var has := Contains(entry, keys[j]);
      if has.Err? {
        return Err(has.error);
      }
      assert keys[j..][0] == keys[j];
      EntryIssuesStep(entry, prefix, keys[j..], issues);
      if !has.value {
        issues := issues + [prefix + keys[j]];
      } else {
        assert issues + [] == issues;
      }
      j := j + 1;
    }
    assert keys[j..] == [];
    assert issues + [] == issues;
    return Ok(issues);
  }

  /** The outer loop over a list of authors or affiliations. */
  method CheckEntries(entries: seq<JsonVal>, prefix: string, keys: seq<string>) returns (r: Result<seq<string>>)
    ensures r == ListIssues(entries, prefix, keys)
  {
    var issues: seq<string> := [];
    var i := 0;
    assert entries[0..] == entries;
    PrependNothing(ListIssues(entries, prefix, keys));
    while i < |entries|
      invariant 0 <= i <= |entries|
      invariant ListIssues(entries, prefix, keys) == Prepend(issues, ListIssues(entries[i..], prefix, keys))
    {
      assert entries[i..][1..] == entries[i + 1..];
      var found := CheckEntry(entries[i], prefix, keys);
      if found.Err? {
        return Err(found.error);
      }
      ListIssuesStep(entries[i..], prefix, keys, issues);
      issues := issues + found.value;
      i := i + 1;
    }
    assert entries[i..] == [];
    assert issues + [] == issues;
    return Ok(issues);
  }

  /** The first loop of `data_inspector`: the keys of `keys` that the
      entry lacks. */
  method CheckKeys(data: Dict, keys: seq<string>) returns (issues: seq<string>)
    ensures issues == MissingKeys(data, keys)
  {
    issues := [];
    var i := 0;
    while i < |keys|
      invariant 0 <= i <= |keys|
      invariant issues == MissingKeys(data, keys[..i])
    {
      assert keys[..i + 1][..i] == keys[..i];
      if keys[i] !in Keys(data) {
        issues := issues + [keys[i]];
      }
      i := i + 1;
    }
    assert keys[..i] == keys;
  }

  /** The membership tests of `data_inspector` on its growing issue list
      stand for presence tests on the entry. */
  lemma MissingGuards(data: Dict)
    ensures var m := MissingKeys(data, FirstLevelKeys);
            ("link" in m <==> Lookup(data, "link").None?)
            && ("author" in m <==> Lookup(data, "author").None?)
            && ("affiliation" in m <==> Lookup(data, "affiliation").None?)
            && ("author-count" in m <==> Lookup(data, "author-count").None?)
  {
    MissingKeysMembers(data, FirstLevelKeys);
    assert "link" in FirstLevelKeys && "author" in FirstLevelKeys;
    assert "affiliation" in FirstLevelKeys && "author-count" in FirstLevelKeys;
  }

  /** The second-level issues never read as the first-level keys checked after them. */
  lemma SubIssuesGuards(data: Dict)
    ensures LinkIssues(data).Ok? ==> LinkIssues(data).value in {[], ["paper url"]}
    ensures var au := SubIssues(data, "author", "author:", AuthorKeys);
            au.Ok? ==> "affiliation" !in au.value && "author-count" !in au.value
    ensures var af := SubIssues(data, "affiliation", "affiliation:", AffiliationKeys);
            af.Ok? ==> "author-count" !in af.value
  {
    assert "affiliation"[..7][1] != "author:"[1];
    assert "author-count"[..7][6] != "author:"[6];
    assert !("affiliation:" <= "author-count");
  }

  /** The 'paper url' test of `data_inspector`, run when 'link' is not
      among the issues found so far. */
  method CheckLink(data: Dict, issues: seq<string>) returns (r: Result<seq<string>>)
    requires "link" in issues <==> Lookup(data, "link").None?
    ensures r == Prepend(issues, LinkIssues(data))
  {
    if "link" in issues {
      assert issues + [] == issues;
      return Ok(issues);
    }
    var links := Iter(Lookup(data, "link").value);
    if links.Err? {
      return Err(links.error);
    }
    var none := NoScopusLink(links.value);
    if none.Err? {
      return Err(none.error);
    }
    if none.value {
      return Ok(issues + ["paper url"]);
    }
    assert issues + [] == issues;
    return Ok(issues);
  }

  /** The second-level test of the list under `field`, run when `field` is
      not among the issues found so far. */
  method CheckSubEntries(data: Dict, issues: seq<string>, field: string, prefix: string, keys: seq<string>)
    returns (r: Result<seq<string>>)
    requires field in issues <==> Lookup(data, field).None?
    ensures r == Prepend(issues, SubIssues(data, field, prefix, keys))
  {
    if field in issues {
      assert issues + [] == issues;
      return Ok(issues);
    }
    var entries := Iter(Lookup(data, field).value);
    if entries.Err? {
      return Err(entries.error);
    }
    var found := CheckEntries(entries.value, prefix, keys);
    if found.Err? {
      return Err(found.error);
    }
    return Ok(issues + found.value);
  }

  /** The 'author-count' test, run when 'author-count' is not among the
      issues found so far. */
  method CheckAuthorCount(data: Dict, issues: seq<string>) returns (r: Result<seq<string>>)
    requires "author-count" in issues <==> Lookup(data, "author-count").None?
    ensures r == Prepend(issues, AuthorCountIssues(data))
  {
    if "author-count" in issues {
      assert issues + [] == issues;
      return Ok(issues);
    }
    var count := Lookup(data, "author-count").value;
    var has := Contains(count, "$");
    if has.Err? {
      return Err(has.error);
    }
    if !has.value {
      return Ok(issues + ["author-count"]);
    }
    var n := GetItem(count, "$");
    if n.Err? {
      return Err(n.error);
    }
    if !Truthy(n.value) {
      return Ok(issues + ["author-count"]);
    }
    assert issues + [] == issues;
    return Ok(issues);
  }

  /** `data_inspector(data)`: the missing first-level keys, 'paper url',
      the missing author and affiliation keys and a bad 'author-count'. */
  method DataInspector(data: Dict) returns (r: Result<seq<string>>)
    ensures r == Inspection(data)
  {
    var issues := CheckKeys(data, FirstLevelKeys);
    MissingGuards(data);
    SubIssuesGuards(data);
    var missing := issues;
    ghost var ac := AuthorCountIssues(data);
    ghost var af := Then(SubIssues(data, "affiliation", "affiliation:", AffiliationKeys), ac);
    ghost var au := Then(SubIssues(data, "author", "author:", AuthorKeys), af);

    assert Inspection(data) == Prepend(missing, Then(LinkIssues(data), au));
    var step := CheckLink(data, issues);
    if step.Err? {
      PrependThenErr(missing, LinkIssues(data), au);
      return step;
    }
    PrependThen(missing, LinkIssues(data), au);
    issues := step.value;
    ghost var linked := issues;
    NotAdded(missing, LinkIssues(data).value, "author");
    NotAdded(missing, LinkIssues(data).value, "affiliation");
    NotAdded(missing, LinkIssues(data).value, "author-count");

    step := CheckSubEntries(data, issues, "author", "author:", AuthorKeys);
    ghost var sa := SubIssues(data, "author", "author:", AuthorKeys);
    if step.Err? {
      PrependThenErr(linked, sa, af);
      return step;
    }
    PrependThen(linked, sa, af);
    issues := step.value;
    ghost var authored := issues;
    NotAdded(linked, sa.value, "affiliation");
    NotAdded(linked, sa.value, "author-count");

    step := CheckSubEntries(data, issues, "affiliation", "affiliation:", AffiliationKeys);
    ghost var sf := SubIssues(data, "affiliation", "affiliation:", AffiliationKeys);
    if step.Err? {
      PrependThenErr(authored, sf, ac);
      return step;
    }
    PrependThen(authored, sf, ac);
    issues := step.value;
    NotAdded(authored, sf.value, "author-count");

    r := CheckAuthorCount(data, issues);
  }

  /** A chain of stages succeeds when every stage does, with their issues in order. */
  lemma ChainParts(m: seq<string>, l: Result<seq<string>>, a: Result<seq<string>>,
                   f: Result<seq<string>>, c: Result<seq<string>>)
    requires Prepend(m, Then(l, Then(a, Then(f, c)))).Ok?
    ensures l.Ok? && a.Ok? && f.Ok? && c.Ok?
    ensures Prepend(m, Then(l, Then(a, Then(f, c)))).value
         == m + l.value + a.value + f.value + c.value
  {
    assert m + (l.value + (a.value + (f.value + c.value))) == m + l.value + a.value + f.value + c.value;
  }

  /** A successful inspection is the concatenation of its stages' issues. */
  lemma InspectionParts(data: Dict)
    requires Inspection(data).Ok?
    ensures LinkIssues(data).Ok? && AuthorCountIssues(data).Ok?
    ensures SubIssues(data, "author", "author:", AuthorKeys).Ok?
    ensures SubIssues(data, "affiliation", "affiliation:", AffiliationKeys).Ok?
    ensures Inspection(data).value
         == MissingKeys(data, FirstLevelKeys) + LinkIssues(data).value
            + SubIssues(data, "author", "author:", AuthorKeys).value
            + SubIssues(data, "affiliation", "affiliation:", AffiliationKeys).value
            + AuthorCountIssues(data).value
  {
    ChainParts(MissingKeys(data, FirstLevelKeys), LinkIssues(data),
      SubIssues(data, "author", "author:", AuthorKeys),
      SubIssues(data, "affiliation", "affiliation:", AffiliationKeys),
      AuthorCountIssues(data));
  }

  lemma FirstLevelKeysNoDup()
    ensures NoDup(FirstLevelKeys)
  {
  }

  /** The issue list opens with each missing first-level key, once, in the
      order of the first-level key list. */
  lemma InspectionListsMissingKeys(data: Dict)
    requires Inspection(data).Ok?
    ensures var m := MissingKeys(data, FirstLevelKeys);
            Inspection(data).value[..|m|] == m && NoDup(m)
            && forall k :: k in m <==> k in FirstLevelKeys && k !in Keys(data)
  {
    InspectionParts(data);
    FirstLevelKeysNoDup();
    MissingKeysNoDup(data, FirstLevelKeys);
    MissingKeysMembers(data, FirstLevelKeys);
  }

  /** The link stage reports 'paper url' exactly when 'link' is present and
      no link has '@ref' 'scopus'. */
  lemma LinkIssuesPaperUrl(data: Dict)
    requires LinkIssues(data).Ok?
    ensures "paper url" in LinkIssues(data).value <==>
              Lookup(data, "link").Some?
              && var links := Iter(Lookup(data, "link").value).value;
                 forall i :: 0 <= i < |links| ==> GetItem(links[i], "@ref") != Ok(Str("scopus"))
  {
    if Lookup(data, "link").Some? {
      var links := Iter(Lookup(data, "link").value).value;
      assert NoScopusLink(links).Ok?;
    }
  }

  /** 'paper url' is not a first-level key. */
  lemma PaperUrlNotMissing(data: Dict)
    ensures "paper url" !in MissingKeys(data, FirstLevelKeys)
  {
    MissingKeysMembers(data, FirstLevelKeys);
    assert "paper url" != FirstLevelKeys[0] by { assert "paper url"[0] != "source-id"[0]; }
    assert "paper url" !in FirstLevelKeys;
  }

  /** No stage but the link stage reports 'paper url'. */
  lemma PaperUrlOnlyFromLink(data: Dict)
    requires SubIssues(data, "author", "author:", AuthorKeys).Ok?
    requires SubIssues(data, "affiliation", "affiliation:", AffiliationKeys).Ok?
    ensures "paper url" !in SubIssues(data, "author", "author:", AuthorKeys).value
    ensures "paper url" !in SubIssues(data, "affiliation", "affiliation:", AffiliationKeys).value
  {
    assert !("author:" <= "paper url") by { assert "paper url"[..7][1] != "author:"[1]; }
    assert !("affiliation:" <= "paper url");
  }

  /** The inspection reports 'paper url' exactly as its link stage does. */
  lemma InspectionPaperUrl(data: Dict)
    requires Inspection(data).Ok?
    ensures "paper url" in Inspection(data).value <==>
              Lookup(data, "link").Some?
              && var links := Iter(Lookup(data, "link").value).value;
                 forall i :: 0 <= i < |links| ==> GetItem(links[i], "@ref") != Ok(Str("scopus"))
  {
    InspectionParts(data);
    PaperUrlNotMissing(data);
    PaperUrlOnlyFromLink(data);
    AuthorCountStage(data);
    LinkIssuesPaperUrl(data);
  }

  /** The author-count stage reports 'author-count' at most once, and exactly
      when it has no '$' entry or a falsy one. */
  lemma AuthorCountStage(data: Dict)
    requires AuthorCountIssues(data).Ok?
    ensures multiset(AuthorCountIssues(data).value)["author-count"] <= 1
    ensures AuthorCountIssues(data).value in {[], ["author-count"]}
    ensures Lookup(data, "author-count").None? ==> AuthorCountIssues(data).value == []
    ensures Lookup(data, "author-count").Some? ==>
              var v := Lookup(data, "author-count").value;
              ("author-count" in AuthorCountIssues(data).value
               <==> !Contains(v, "$").value || !Truthy(GetItem(v, "$").value))
  {
  }

  /** A key occurs at most once in a list without repeats. */
  lemma {:induction false} NoDupCount(s: seq<string>, x: string)
    requires NoDup(s)
    decreases |s|
    ensures multiset(s)[x] <= 1
  {
    if s != [] {
      var t, y := s[..|s| - 1], s[|s| - 1];
      assert s == t + [y];
      assert NoDup(t) by {
        forall i, j | 0 <= i < j < |t| ensures t[i] != t[j] { assert t[i] == s[i] && t[j] == s[j]; }
      }
      NoDupCount(t, x);
      if y == x {
        assert x !in t by {
          forall i | 0 <= i < |t| ensures t[i] != x { assert t[i] == s[i]; }
        }
        assert multiset(t)[x] == 0;
      }
      assert multiset(s) == multiset(t) + multiset{y};
    }
  }

  /** A key that only the first and last of five lists may hold, and only one
      of them once, occurs at most once in their concatenation. */
  lemma CountInChain(m: seq<string>, l: seq<string>, a: seq<string>, f: seq<string>,
                     c: seq<string>, x: string)
    requires multiset(m)[x] <= 1 && multiset(c)[x] <= 1
    requires x !in l && x !in a && x !in f
    requires x in m ==> c == []
    ensures multiset(m + l + a + f + c)[x] <= 1
    ensures x in m + l + a + f + c <==> x in m || x in c
  {
    assert multiset(m + l + a + f + c) == multiset(m) + multiset(l) + multiset(a) + multiset(f) + multiset(c);
  }

  /** A first-level key is reported missing at most once. */
  lemma MissingOnce(data: Dict, k: string)
    ensures multiset(MissingKeys(data, FirstLevelKeys))[k] <= 1
  {
    FirstLevelKeysNoDup();
    MissingKeysNoDup(data, FirstLevelKeys);
    NoDupCount(MissingKeys(data, FirstLevelKeys), k);
  }

  /** The facts about one successful inspection that bear on 'author-count'. */
  lemma AuthorCountFacts(data: Dict)
    requires Inspection(data).Ok?
    ensures multiset(Inspection(data).value)["author-count"] <= 1
    ensures "author-count" in Inspection(data).value <==>
              "author-count" in MissingKeys(data, FirstLevelKeys)
              || "author-count" in AuthorCountIssues(data).value
  {
    var m := MissingKeys(data, FirstLevelKeys);
    var l, a, f, c := LinkIssues(data), SubIssues(data, "author", "author:", AuthorKeys),
      SubIssues(data, "affiliation", "affiliation:", AffiliationKeys), AuthorCountIssues(data);
    assert l.Ok? && a.Ok? && f.Ok? && c.Ok?
        && Inspection(data).value == m + l.value + a.value + f.value + c.value by {
      InspectionParts(data);
    }
    assert multiset(m)["author-count"] <= 1 by { MissingOnce(data, "author-count"); }
    assert multiset(c.value)["author-count"] <= 1 && ("author-count" in m ==> c.value == []) by {
      MissingGuards(data);
      AuthorCountStage(data);
    }
    assert "author-count" !in l.value && "author-count" !in a.value && "author-count" !in f.value by {
      SubIssuesGuards(data);
    }
    CountInChain(m, l.value, a.value, f.value, c.value, "author-count");
  }

  /** 'author-count' is reported at most once: when the key is missing, or
      when it has no '$' entry or a falsy one. */
  lemma InspectionAuthorCountOnce(data: Dict)
    requires Inspection(data).Ok?
    ensures multiset(Inspection(data).value)["author-count"] <= 1
    ensures "author-count" in Inspection(data).value <==>
              match Lookup(data, "author-count")
              case None => true
              case Some(v) => !Contains(v, "$").value || !Truthy(GetItem(v, "$").value)
  {
    AuthorCountFacts(data);
    InspectionParts(data);
    MissingGuards(data);
    AuthorCountStage(data);
  }
}
