/** The Python string builtins that the ETL code relies on: `str.strip`,
    `str.split`, `str.join`, `str.replace`, `str.lower`, `str(int)`,
    `int(str)`, `float(str)` and slicing `s[:k]`. */
module PyStr {
  import opened Wrappers

  /** `c.isspace()`: the characters that `str.strip()` removes. */
  predicate IsSpace(c: char) {
    c == ' ' || ('\t' <= c <= '\r') || ('\U{1c}' <= c <= '\U{1f}')
    || c == '\U{85}' || c == '\U{a0}' || c == '\U{1680}'
    || ('\U{2000}' <= c <= '\U{200a}') || c == '\U{2028}' || c == '\U{2029}'
    || c == '\U{202f}' || c == '\U{205f}' || c == '\U{3000}'
  }

  predicate NoSpace(s: string) {
    forall k :: 0 <= k < |s| ==> !IsSpace(s[k])
  }

  // ---------------------------------------------------------------- strip

  /** `s.lstrip()`: the longest suffix of `s` that does not start with whitespace. */
  function LStrip(s: string): (r: string)
    ensures |r| <= |s| && r == s[|s| - |r|..]
    ensures r == [] || !IsSpace(r[0])
    ensures forall k :: 0 <= k < |s| - |r| ==> IsSpace(s[k])
  {
    if |s| > 0 && IsSpace(s[0]) then LStrip(s[1..]) else s
  }

  /** `s.rstrip()`: the longest prefix of `s` that does not end with whitespace. */
  function RStrip(s: string): (r: string)
    ensures |r| <= |s| && r == s[..|r|]
    ensures r == [] || !IsSpace(r[|r| - 1])
    ensures forall k :: |r| <= k < |s| ==> IsSpace(s[k])
  {
    if |s| > 0 && IsSpace(s[|s| - 1]) then RStrip(s[..|s| - 1]) else s
  }

  /** `s.strip()`: `s` less its leading and trailing whitespace. */
  function Strip(s: string): (r: string)
    ensures |r| <= |s|
  {
    RStrip(LStrip(s))
  }

  /** The strip of `s` is the slice of `s` between its leading and its
      trailing whitespace, and starts and ends with other characters. */
  lemma StripSpec(s: string)
    ensures var r := Strip(s);
            (r == [] || (!IsSpace(r[0]) && !IsSpace(r[|r| - 1])))
            && var i := |s| - |LStrip(s)|;
            i + |r| <= |s| && r == s[i..i + |r|]
            && (forall k :: 0 <= k < i ==> IsSpace(s[k]))
            && (forall k :: i + |r| <= k < |s| ==> IsSpace(s[k]))
  {
    StripEnds(LStrip(s));
    StripSlice(s);
    StripTrailing(s);
  }

  lemma StripSlice(s: string)
    ensures var i := |s| - |LStrip(s)|;
            i + |Strip(s)| <= |s| && Strip(s) == s[i..i + |Strip(s)|]
  {
    var l := LStrip(s);
    SliceOfSlice(s, |s| - |l|, |RStrip(l)|);
  }

  lemma StripTrailing(s: string)
    ensures var i := |s| - |LStrip(s)|;
            forall k :: i + |Strip(s)| <= k < |s| ==> IsSpace(s[k])
  {
    var l := LStrip(s);
    TailSpaces(s, |s| - |l|, l, |RStrip(l)|);
  }

  /** Whitespace after position `n` of a suffix `l` of `s` is whitespace of `s`. */
  lemma TailSpaces(s: string, i: nat, l: string, n: nat)
    requires i <= |s| && l == s[i..] && n <= |l|
    requires forall k :: n <= k < |l| ==> IsSpace(l[k])
    ensures forall k :: i + n <= k < |s| ==> IsSpace(s[k])
  {
    forall k | i + n <= k < |s| ensures IsSpace(s[k]) {
      assert s[k] == l[k - i];
    }
  }

  /** `RStrip` of a string that `LStrip` left starts and ends with other
      characters than whitespace. */
  lemma StripEnds(l: string)
    requires l == [] || !IsSpace(l[0])
    ensures var r := RStrip(l); r == [] || (!IsSpace(r[0]) && !IsSpace(r[|r| - 1]))
  {
    var r := RStrip(l);
    if r != [] {
      assert r[0] == l[0];
    }
  }

  lemma SliceOfSlice(s: string, i: nat, n: nat)
    requires i + n <= |s|
    ensures s[i..][..n] == s[i..i + n]
  {
  }

  lemma StripIdempotent(s: string)
    ensures Strip(Strip(s)) == Strip(s)
  {
    StripSpec(s);
    StripNoSpaceEnds(Strip(s));
  }

  /** A string without whitespace at either end is its own strip. */
  lemma StripNoSpaceEnds(s: string)
    requires s == [] || (!IsSpace(s[0]) && !IsSpace(s[|s| - 1]))
    ensures Strip(s) == s
  {
    assert LStrip(s) == s;
    assert RStrip(s) == s;
  }

  /** Stripping keeps every character that is not whitespace, so a string
      without whitespace is unchanged. */
  lemma StripNoSpace(s: string)
    requires NoSpace(s)
    ensures Strip(s) == s
  {
    StripNoSpaceEnds(s);
  }

  // ---------------------------------------------------------------- split / join

  predicate OccursAt(s: string, sep: string, i: nat) {
    i + |sep| <= |s| && s[i..i + |sep|] == sep
  }

  /** `s.find(sep, from)`: the first occurrence of `sep` at or after `from`. */
  function Find(s: string, sep: string, from: nat): (r: Option<nat>)
    decreases |s| - from
    ensures r.Some? ==> from <= r.value && OccursAt(s, sep, r.value)
    ensures r.Some? ==> forall k :: from <= k < r.value ==> !OccursAt(s, sep, k)
    ensures r.None? ==> forall k :: from <= k ==> !OccursAt(s, sep, k)
  {
    if from + |sep| > |s| then None
    else if s[from..from + |sep|] == sep then Some(from)
    else Find(s, sep, from + 1)
  }

  /** `s.split(sep)` for a non-empty separator: the pieces between the
      non-overlapping occurrences of `sep`, scanned from the left. */
  function SplitOn(s: string, sep: string): (r: seq<string>)
    requires |sep| > 0
    decreases |s|
    ensures |r| >= 1
  {
    match Find(s, sep, 0)
    case None => [s]
    case Some(i) => [s[..i]] + SplitOn(s[i + |sep|..], sep)
  }

  /** `sep.join(parts)`. */
  function Join(parts: seq<string>, sep: string): (r: string)
    decreases |parts|
  {
    if |parts| == 0 then ""
    else if |parts| == 1 then parts[0]
    else parts[0] + sep + Join(parts[1..], sep)
  }

  /** `s.split(sep)`: an empty separator raises ValueError. */
  function Split(s: string, sep: string): (r: Result<seq<string>>)
    ensures r.Err? <==> sep == ""
    ensures r.Ok? ==> |r.value| >= 1 && Join(r.value, sep) == s
  {
    if sep == "" then Err(ValueError)
    else
      JoinSplit(s, sep);
      Ok(SplitOn(s, sep))
  }

  /** Joining the pieces of a split with the separator restores the string. */
  lemma {:induction false} JoinSplit(s: string, sep: string)
    requires |sep| > 0
    decreases |s|
    ensures Join(SplitOn(s, sep), sep) == s
  {
    match Find(s, sep, 0)
    case None =>
    case Some(i) =>
      var rest := s[i + |sep|..];
      var tail := SplitOn(rest, sep);
      JoinSplit(rest, sep);
      var parts := [s[..i]] + tail;
      assert SplitOn(s, sep) == parts;
      assert parts[1..] == tail;
      assert Join(parts, sep) == s[..i] + sep + Join(tail, sep);
      assert s[i..i + |sep|] == sep;
      assert s == s[..i] + s[i..i + |sep|] + rest;
  }

  /** No piece of a split contains the (one-character) separator. */
  lemma {:induction false} SplitPiecesAvoidSep(s: string, c: char)
    decreases |s|
    ensures forall p :: p in SplitOn(s, [c]) ==> c !in p
  {
    match Find(s, [c], 0)
    case None =>
      forall k | 0 <= k < |s| ensures s[k] != c {
        assert !OccursAt(s, [c], k);
        assert s[k..k + 1] == [s[k]];
      }
    case Some(i) =>
      SplitPiecesAvoidSep(s[i + 1..], c);
      forall k | 0 <= k < i ensures s[k] != c {
        assert !OccursAt(s, [c], k);
        assert s[k..k + 1] == [s[k]];
      }
  }

  // ---------------------------------------------------------------- replace

  /** `s.replace(pat, repl)`. With a non-empty `pat` this is
      `repl.join(s.split(pat))`; with an empty `pat`, `repl` is put before
      every character and at the end. */
  function Replace(s: string, pat: string, repl: string): (r: string)
  {
    if pat == "" then repl + Interleave(s, repl) else Join(SplitOn(s, pat), repl)
  }

  function Interleave(s: string, repl: string): string
    decreases |s|
  {
    if s == [] then "" else [s[0]] + repl + Interleave(s[1..], repl)
  }

  /** Removing a prefix with `replace(prefix, '')` from a string made of the
      prefix and a tail in which the prefix never occurs yields the tail. */
  lemma ReplacePrefix(prefix: string, tail: string)
    requires |prefix| > 0
    requires forall k :: !OccursAt(tail, prefix, k)
    ensures Replace(prefix + tail, prefix, "") == tail
  {
    var s := prefix + tail;
    assert s[0..|prefix|] == prefix;
    assert Find(s, prefix, 0) == Some(0);
    assert s[|prefix|..] == tail;
    assert Find(tail, prefix, 0).None?;
    assert SplitOn(tail, prefix) == [tail];
    assert SplitOn(s, prefix) == [""] + [tail];
    assert Join([""] + [tail], "") == "" + "" + Join([tail], "");
  }

  /** A string in which `pat` never occurs is unchanged by `replace`. */
  lemma ReplaceAbsent(s: string, pat: string, repl: string)
    requires |pat| > 0
    requires forall k :: !OccursAt(s, pat, k)
    ensures Replace(s, pat, repl) == s
  {
    assert SplitOn(s, pat) == [s];
  }

  // ---------------------------------------------------------------- lower

  function LowerChar(c: char): (r: char)
  {
    if 'A' <= c <= 'Z' then (c as int + 32) as char else c
  }

  /** `s.lower()` on the ASCII letters; other characters are kept. */
  function Lower(s: string): (r: string)
    ensures |r| == |s|
    ensures forall k :: 0 <= k < |s| ==> r[k] == LowerChar(s[k])
  {
    seq(|s|, k requires 0 <= k < |s| => LowerChar(s[k]))
  }

  lemma LowerIdempotent(s: string)
    ensures Lower(Lower(s)) == Lower(s)
  {
  }

  // ---------------------------------------------------------------- slicing

  /** `s[:k]` with Python's reading of a negative or too large `k`. */
  function SliceTo(s: string, k: int): (r: string)
    ensures 0 <= k ==> r == s[..if k <= |s| then k else |s|]
    ensures k < 0 ==> r == s[..if -k <= |s| then |s| + k else 0]
  {
    if k >= 0 then (if k <= |s| then s[..k] else s)
    else if -k <= |s| then s[..|s| + k] else ""
  }

  // ---------------------------------------------------------------- int <-> str

  predicate IsDigit(c: char) {
    '0' <= c <= '9'
  }

  predicate AllDigits(s: string) {
    forall k :: 0 <= k < |s| ==> IsDigit(s[k])
  }

  function DigitChar(d: nat): (c: char)
    requires d < 10
    ensures IsDigit(c) && c as int - '0' as int == d
  {
    (d + '0' as int) as char
  }

  /** The decimal digits of `n`, without leading zeros. */
  function NatToStr(n: nat): (r: string)
    decreases n
    ensures |r| >= 1 && AllDigits(r)
  {
    if n < 10 then [DigitChar(n)] else NatToStr(n / 10) + [DigitChar(n % 10)]
  }

  /** `str(n)` for an int. */
  function IntToStr(n: int): (r: string)
    ensures |r| >= 1
    ensures n < 0 <==> r[0] == '-'
  {
    if n < 0 then "-" + NatToStr(-n) else NatToStr(n)
  }

  /** The number written by a string of decimal digits. */
  function DigitsValue(ds: string): nat
    requires AllDigits(ds)
    decreases |ds|
  {
    if ds == [] then 0
    else DigitsValue(ds[..|ds| - 1]) * 10 + (ds[|ds| - 1] as int - '0' as int)
  }

  /** The digits and underscores of an int literal's body: digits, with single
      underscores between them (`1_000`). */
  predicate IntBody(b: string) {
    |b| > 0 && IsDigit(b[0]) && IsDigit(b[|b| - 1])
    && (forall k :: 0 <= k < |b| ==> IsDigit(b[k]) || b[k] == '_')
    && (forall k :: 0 <= k < |b| - 1 ==> b[k] == '_' ==> b[k + 1] != '_')
  }

  function DropUnderscores(b: string): (r: string)
    decreases |b|
    ensures (forall k :: 0 <= k < |b| ==> IsDigit(b[k]) || b[k] == '_') ==> AllDigits(r)
    ensures AllDigits(b) ==> r == b
  {
    if b == [] then ""
    else (if b[0] == '_' then "" else [b[0]]) + DropUnderscores(b[1..])
  }

  /** `int(s)` for a str in base 10: surrounding whitespace, an optional sign,
      then ASCII digits with single underscores between them. Anything else is
      given as None, ValueError, including digits of other scripts, which
      Python's `int()` also accepts. */
  function ParseInt(s: string): (r: Option<int>)
    ensures r.Some? ==> |Strip(s)| > 0
  {
    var t := Strip(s);
    var neg := |t| > 0 && t[0] == '-';
    var b := if |t| > 0 && (t[0] == '-' || t[0] == '+') then t[1..] else t;
    if IntBody(b) then
      var v: int := DigitsValue(DropUnderscores(b));
      Some(if neg then -v else v)
    else None
  }

  lemma {:induction false} DigitsValueOfNat(n: nat)
    decreases n
    ensures DigitsValue(NatToStr(n)) == n
  {
    var s := NatToStr(n);
    if n >= 10 {
      DigitsValueOfNat(n / 10);
      assert s[..|s| - 1] == NatToStr(n / 10);
    }
  }

  /** `str(n)` has no whitespace, and its digits follow an optional '-'. */
  lemma IntToStrShape(n: int)
    ensures NoSpace(IntToStr(n))
    ensures n < 0 ==> IntToStr(n)[1..] == NatToStr(-n)
    ensures n >= 0 ==> IntToStr(n) == NatToStr(n)
  {
    var d := NatToStr(if n < 0 then -n else n);
    var s := IntToStr(n);
    forall k | 0 <= k < |s| ensures !IsSpace(s[k]) {
      if n < 0 && k > 0 { assert s[k] == d[k - 1]; }
    }
    if n < 0 {
      assert s[1..] == d;
    }
  }

  /** A plain digit string is an int literal body without underscores. */
  lemma DigitsIntBody(d: string)
    requires |d| > 0 && AllDigits(d)
    ensures IntBody(d) && DropUnderscores(d) == d
  {
  }

  /** `int(str(n)) == n`. */
  lemma ParseIntOfIntToStr(n: int)
    ensures ParseInt(IntToStr(n)) == Some(n)
  {
    var m: nat := if n < 0 then -n else n;
    var d := NatToStr(m);
    var s := IntToStr(n);
    IntToStrShape(n);
    StripNoSpace(s);
    assert Strip(s) == s;
    DigitsIntBody(d);
    DigitsValueOfNat(m);
    if n < 0 {
      assert s[0] == '-' && s[1..] == d;
    } else {
      assert s == d && IsDigit(s[0]);
    }
  }

  /** A leading zero does not change the number a digit string writes. */
  lemma {:induction false} DigitsValueLeadingZero(d: string)
    requires AllDigits(d)
    decreases |d|
    ensures AllDigits("0" + d) && DigitsValue("0" + d) == DigitsValue(d)
  {
    var z := "0" + d;
    if d != [] {
      assert z[..|z| - 1] == "0" + d[..|d| - 1];
      assert z[|z| - 1] == d[|d| - 1];
      DigitsValueLeadingZero(d[..|d| - 1]);
    }
  }

  /** `int('0' + str(n)) == n` for `n >= 0`: leading zeros are accepted. */
  lemma ParseIntLeadingZero(n: nat)
    ensures ParseInt("0" + NatToStr(n)) == Some(n)
  {
    var d := NatToStr(n);
    var s := "0" + d;
    DigitsValueLeadingZero(d);
    assert NoSpace(s);
    StripNoSpace(s);
    DigitsIntBody(s);
    DigitsValueOfNat(n);
  }

  /** The strings `int()` accepts are exactly those with the literal shape. */
  lemma ParseIntShape(s: string)
    ensures ParseInt(s).Some? <==>
      var t := Strip(s);
      IntBody(if |t| > 0 && (t[0] == '-' || t[0] == '+') then t[1..] else t)
  {
  }

  // ---------------------------------------------------------------- float

  function Pow10(k: nat): (r: nat)
    ensures r >= 1
  {
    if k == 0 then 1 else 10 * Pow10(k - 1)
  }

  /** `float(s)` for plain decimal text: surrounding whitespace, an optional
      sign, digits with at most one '.', and at least one digit. */
  function ParseDecimal(s: string): (r: Option<real>)
    ensures r.Some? ==> |Strip(s)| > 0
  {
    var t := Strip(s);
    var neg := |t| > 0 && t[0] == '-';
    var b := if |t| > 0 && (t[0] == '-' || t[0] == '+') then t[1..] else t;
    match Find(b, ".", 0)
    case None =>
      if |b| > 0 && AllDigits(b) then
        var v := DigitsValue(b) as real;
        Some(if neg then -v else v)
      else None
    case Some(i) =>
      var whole := b[..i];
      var frac := b[i + 1..];
      if |whole| + |frac| > 0 && AllDigits(whole) && AllDigits(frac) then
        var v := DigitsValue(whole) as real + DigitsValue(frac) as real / Pow10(|frac|) as real;
        Some(if neg then -v else v)
      else None
  }

  /** A digit string has no '.'. */
  lemma DigitsNoDot(d: string)
    requires AllDigits(d)
    ensures Find(d, ".", 0).None?
  {
    forall k: nat | k < |d| ensures !OccursAt(d, ".", k) {
      assert d[k..k + 1] == [d[k]];
    }
  }

  /** `float(str(n)) == n` for an int written by `str`. */
  lemma ParseDecimalOfIntToStr(n: int)
    ensures ParseDecimal(IntToStr(n)) == Some(n as real)
  {
    var m: nat := if n < 0 then -n else n;
    var d := NatToStr(m);
    var s := IntToStr(n);
    IntToStrShape(n);
    StripNoSpace(s);
    DigitsNoDot(d);
    DigitsValueOfNat(m);
    var b := if s[0] == '-' || s[0] == '+' then s[1..] else s;
    assert b == d;
  }
}
