/** Python values as they arrive from the Scopus JSON API and from CSV rows,
    and the Python operations on them that the ETL code uses: `v[k]`,
    `v[i]`, `k in v`, `for x in v`, `int(v)`, truthiness and `d[k] = v`. */
module Py {
  import opened Wrappers
  import PyStr

  /** A JSON value. An object keeps its keys in insertion order, as a Python
      dict does. Booleans and floats do not occur in the modelled fields. */
  datatype JsonVal =
    | Null
    | Str(s: string)
    | Num(n: int)
    | Arr(items: seq<JsonVal>)
    | Obj(fields: Dict)

  type Dict = seq<(string, JsonVal)>

  /** The keys of a dict, in order. */
  function Keys(d: Dict): (r: seq<string>)
    ensures |r| == |d|
    ensures forall i :: 0 <= i < |d| ==> r[i] == d[i].0
  {
    seq(|d|, i requires 0 <= i < |d| => d[i].0)
  }

  /** A dict never holds a key twice. */
  predicate UniqueKeys(d: Dict) {
    forall i, j :: 0 <= i < j < |d| ==> d[i].0 != d[j].0
  }

  /** `d.get(k)`: the value stored under `k`, if any. */
  function Lookup(d: Dict, k: string): (r: Option<JsonVal>)
    decreases |d|
    ensures r.Some? <==> k in Keys(d)
    ensures r.Some? ==> (k, r.value) in d
  {
    if d == [] then None
    else if d[0].0 == k then Some(d[0].1)
    else
      assert Keys(d) == [d[0].0] + Keys(d[1..]);
      Lookup(d[1..], k)
  }

  lemma KeysCons(p: (string, JsonVal), d: Dict)
    ensures Keys([p] + d) == [p.0] + Keys(d)
  {
    var e, ks := [p] + d, [p.0] + Keys(d);
    forall i | 0 <= i < |e| ensures Keys(e)[i] == ks[i] {
      if i > 0 {
        assert e[i] == d[i - 1];
      }
    }
  }

  lemma LookupCons(p: (string, JsonVal), d: Dict, k: string)
    ensures Lookup([p] + d, k) == if p.0 == k then Some(p.1) else Lookup(d, k)
    ensures Keys([p] + d) == [p.0] + Keys(d)
  {
    var e := [p] + d;
    assert e[0] == p && e[1..] == d;
    KeysCons(p, d);
  }

  /** `d[k] = v`: an existing key keeps its position, a new key goes last. */
  function SetItem(d: Dict, k: string, v: JsonVal): (r: Dict)
    decreases |d|
    ensures Lookup(r, k) == Some(v)
    ensures forall k' :: k' != k ==> Lookup(r, k') == Lookup(d, k')
  {
    if d == [] then [(k, v)]
    else
      var rest := d[1..];
      assert d == [d[0]] + rest;
      LookupCons(d[0], rest, k);
      if d[0].0 == k then
        var r := [(k, v)] + rest;
        LookupCons((k, v), rest, k);
        assert forall k' :: k' != k ==> Lookup(r, k') == Lookup(d, k') by {
          forall k' | k' != k ensures Lookup(r, k') == Lookup(d, k') {
            LookupCons((k, v), rest, k');
            LookupCons(d[0], rest, k');
          }
        }
        r
      else
        var t := SetItem(rest, k, v);
        var r := [d[0]] + t;
        LookupCons(d[0], t, k);
        assert forall k' :: k' != k ==> Lookup(r, k') == Lookup(d, k') by {
          forall k' | k' != k ensures Lookup(r, k') == Lookup(d, k') {
            LookupCons(d[0], t, k');
            LookupCons(d[0], rest, k');
          }
        }
        r
  }

  /** `d[k] = v` keeps the key order and appends a new key. */
  lemma {:induction false} SetItemKeys(d: Dict, k: string, v: JsonVal)
    decreases |d|
    ensures Keys(SetItem(d, k, v)) == if k in Keys(d) then Keys(d) else Keys(d) + [k]
  {
    if d != [] {
      var rest := d[1..];
      assert d == [d[0]] + rest;
      LookupCons(d[0], rest, k);
      if d[0].0 == k {
        LookupCons((k, v), rest, k);
      } else {
        SetItemKeys(rest, k, v);
        LookupCons(d[0], SetItem(rest, k, v), k);
        assert (k in Keys(d)) == (k in Keys(rest));
      }
    }
  }

  /** `d[k] = v` never makes a dict hold a key twice. */
  lemma SetItemUnique(d: Dict, k: string, v: JsonVal)
    requires UniqueKeys(d)
    ensures UniqueKeys(SetItem(d, k, v))
  {
    var r := SetItem(d, k, v);
    SetItemKeys(d, k, v);
    forall i, j | 0 <= i < j < |r| ensures r[i].0 != r[j].0 {
      assert r[i].0 == Keys(r)[i] && r[j].0 == Keys(r)[j];
      if j < |d| {
        assert Keys(d)[i] == d[i].0 && Keys(d)[j] == d[j].0;
      } else {
        assert Keys(r)[i] == Keys(d)[i] && Keys(d)[i] in Keys(d);
      }
    }
  }

  /** `bool(v)`. */
  predicate Truthy(v: JsonVal) {
    match v
    case Null => false
    case Str(s) => s != ""
    case Num(n) => n != 0
    case Arr(items) => |items| > 0
    case Obj(fields) => |fields| > 0
  }

  /** Values that may be dict keys or set members (lists and dicts are unhashable). */
  predicate Hashable(v: JsonVal) {
    v.Null? || v.Str? || v.Num?
  }

  /** `v[k]` for a str key: only a dict can be subscripted by a str. */
  function GetItem(v: JsonVal, k: string): (r: Result<JsonVal>)
    ensures r.Ok? <==> v.Obj? && k in Keys(v.fields)
    ensures r.Ok? ==> (k, r.value) in v.fields
    ensures r.Err? ==> r.error == (if v.Obj? then KeyError else TypeError)
  {
    match v
    case Obj(d) =>
      (match Lookup(d, k)
       case Some(x) => Ok(x)
       case None => Err(KeyError))
    case _ => Err(TypeError)
  }

  /** `v[i]` for an int index: a list (or str) is indexed from either end; a
      dict has no int keys here, since JSON keys are strings. */
  function GetIndex(v: JsonVal, i: int): (r: Result<JsonVal>)
    ensures v.Arr? && 0 <= i < |v.items| ==> r == Ok(v.items[i])
    ensures v.Arr? && -|v.items| <= i < 0 ==> r == Ok(v.items[|v.items| + i])
    ensures v.Arr? && !(-|v.items| <= i < |v.items|) ==> r == Err(IndexError)
    ensures v.Obj? ==> r == Err(KeyError)
    ensures v.Null? || v.Num? ==> r == Err(TypeError)
  {
    match v
    case Arr(items) =>
      if 0 <= i < |items| then Ok(items[i])
      else if -|items| <= i < 0 then Ok(items[|items| + i])
      else Err(IndexError)
    case Str(s) =>
      if 0 <= i < |s| then Ok(Str([s[i]]))
      else if -|s| <= i < 0 then Ok(Str([s[|s| + i]]))
      else Err(IndexError)
    case Obj(_) => Err(KeyError)
    case _ => Err(TypeError)
  }

  /** `s in t` for strs: substring test. */
  predicate IsSubstring(s: string, t: string) {
    exists i :: 0 <= i <= |t| - |s| && PyStr.OccursAt(t, s, i)
  }

  /** `k in v` for a str `k`: a key of a dict, an element of a list, a
      substring of a str; None and ints are not containers. */
  function Contains(v: JsonVal, k: string): (r: Result<bool>)
    ensures r.Err? <==> v.Null? || v.Num?
    ensures r.Err? ==> r.error == TypeError
    ensures v.Obj? ==> r == Ok(k in Keys(v.fields))
    ensures v.Arr? ==> r == Ok(Str(k) in v.items)
  {
    match v
    case Obj(d) => Ok(k in Keys(d))
    case Arr(items) => Ok(Str(k) in items)
    case Str(s) => Ok(IsSubstring(k, s))
    case _ => Err(TypeError)
  }

  /** `list(v)`: the values a `for` loop over `v` visits: a list's items, a
      dict's keys, a str's characters. */
  function Iter(v: JsonVal): (r: Result<seq<JsonVal>>)
    ensures r.Err? <==> v.Null? || v.Num?
    ensures v.Arr? ==> r == Ok(v.items)
    ensures v.Obj? ==> r.Ok? && |r.value| == |v.fields|
                       && forall i :: 0 <= i < |v.fields| ==> r.value[i] == Str(v.fields[i].0)
  {
    match v
    case Arr(items) => Ok(items)
    case Obj(d) => Ok(seq(|d|, i requires 0 <= i < |d| => Str(d[i].0)))
    case Str(s) => Ok(seq(|s|, i requires 0 <= i < |s| => Str([s[i]])))
    case _ => Err(TypeError)
  }

  /** `if not data[key]: return ...` followed by `for x in data[key]`: the
      elements visited, none when the value is falsy; KeyError without the
      key, and TypeError when the value cannot be iterated. */
  function ListField(data: Dict, key: string): (r: Result<seq<JsonVal>>)
    ensures Lookup(data, key).None? ==> r == Err(KeyError)
    ensures Lookup(data, key).Some? && !Truthy(Lookup(data, key).value) ==> r == Ok([])
  {
    var v :- GetItem(Obj(data), key);
    if !Truthy(v) then Ok([]) else Iter(v)
  }

  /** A truthy value under `key` is iterated: the elements are those of `for x in data[key]`. */
  lemma ListFieldIterates(data: Dict, key: string)
    requires Lookup(data, key).Some? && Truthy(Lookup(data, key).value)
    ensures ListField(data, key) == Iter(Lookup(data, key).value)
  {
  }

  /** `int(v)`: an int is kept, a str is parsed in base 10 (ValueError when
      it is not an int literal), and anything else raises TypeError. */
  function PyInt(v: JsonVal): (r: Result<int>)
    ensures v.Num? ==> r == Ok(v.n)
    ensures v.Str? ==> (r.Ok? <==> PyStr.ParseInt(v.s).Some?)
    ensures v.Str? && r.Err? ==> r.error == ValueError
    ensures v.Null? || v.Arr? || v.Obj? ==> r == Err(TypeError)
  {
    match v
    case Num(n) => Ok(n)
    case Str(s) =>
      (match PyStr.ParseInt(s)
       case Some(n) => Ok(n)
       case None => Err(ValueError))
    case _ => Err(TypeError)
  }

  /** `int(str(n)) == n`. */
  lemma PyIntOfIntToStr(n: int)
    ensures PyInt(Str(PyStr.IntToStr(n))) == Ok(n)
  {
    PyStr.ParseIntOfIntToStr(n);
  }

  /** `float(v)`: an int is converted, a str is read as plain decimal text
      (ValueError otherwise), and anything else raises TypeError. */
  function PyFloat(v: JsonVal): Result<real> {
    match v
    case Num(n) => Ok(n as real)
    case Str(s) =>
      (match PyStr.ParseDecimal(s)
       case Some(x) => Ok(x)
       case None => Err(ValueError))
    case _ => Err(TypeError)
  }

  /** `float(str(n)) == n`, and `float` raises only the errors it is caught for. */
  lemma PyFloatOfIntToStr(n: int)
    ensures PyFloat(Str(PyStr.IntToStr(n))) == Ok(n as real)
    ensures forall v :: PyFloat(v).Err? ==> PyFloat(v).error in {TypeError, ValueError}
  {
    PyStr.ParseDecimalOfIntToStr(n);
  }
}
