/** String primitives the backend and the front end rely on: ASCII
    lower-casing, whitespace stripping, substring search, joining with a
    separator, and the decimal integer syntax read by `int(...)` and written
    by `str(...)`. */
module Text {
  import opened Wrappers

  /** Characters Python's `str.strip()` removes (those for which `isspace()` holds). */
  const PyWhitespace: set<char> := {
    ' ', '\t', '\n', '\r', '\U{0B}', '\U{0C}', '\U{1C}', '\U{1D}', '\U{1E}', '\U{1F}',
    '\U{85}', '\U{A0}', '\U{1680}', '\U{2000}', '\U{2001}', '\U{2002}', '\U{2003}',
    '\U{2004}', '\U{2005}', '\U{2006}', '\U{2007}', '\U{2008}', '\U{2009}', '\U{200A}',
    '\U{2028}', '\U{2029}', '\U{202F}', '\U{205F}', '\U{3000}'
  }

  /** Characters JavaScript's `String.prototype.trim()` removes. */
  const JsWhitespace: set<char> := {
    ' ', '\t', '\n', '\r', '\U{0B}', '\U{0C}', '\U{A0}', '\U{FEFF}', '\U{1680}',
    '\U{2000}', '\U{2001}', '\U{2002}', '\U{2003}', '\U{2004}', '\U{2005}', '\U{2006}',
    '\U{2007}', '\U{2008}', '\U{2009}', '\U{200A}', '\U{2028}', '\U{2029}', '\U{202F}',
    '\U{205F}', '\U{3000}'
  }

  /** Characters pandas' number parser skips around a number: the ASCII
      space and the control characters tab through carriage return. */
  const AsciiWhitespace: set<char> := {' ', '\t', '\n', '\U{0B}', '\U{0C}', '\r'}

  // ---------------------------------------------------------------------------
  // Lower-casing (ASCII letters only)

  predicate IsUpper(ch: char) { 'A' <= ch <= 'Z' }

  function LowerChar(ch: char): char
  {
    if IsUpper(ch) then (ch as int + 32) as char else ch
  }

  /** `str.lower()` / `toLowerCase()`, restricted to the ASCII letters. */
  function Lower(s: string): (r: string)
    ensures |r| == |s|
    ensures forall i :: 0 <= i < |s| ==> r[i] == LowerChar(s[i])
  {
    if s == [] then [] else [LowerChar(s[0])] + Lower(s[1..])
  }

  /** Lower-casing twice is lower-casing once: a lowered string has no capitals left. */
  lemma LowerIdempotent(s: string)
    ensures Lower(Lower(s)) == Lower(s)
  {
    var l := Lower(s);
    assert forall i :: 0 <= i < |l| ==> !IsUpper(l[i]);
    assert forall i :: 0 <= i < |l| ==> Lower(l)[i] == l[i];
  }

  // ---------------------------------------------------------------------------
  // Stripping

  predicate AllIn(s: string, ws: set<char>)
  {
    forall i :: 0 <= i < |s| ==> s[i] in ws
  }

  /** Number of leading characters of `s` that belong to `ws`. */
  function Leading(s: string, ws: set<char>): (n: nat)
    ensures n <= |s| && AllIn(s[..n], ws)
    ensures n == |s| || s[n] !in ws
  {
    if s != [] && s[0] in ws then
      var k := Leading(s[1..], ws);
      assert s[1..][..k] == s[1..k + 1];
      1 + k
    else 0
  }

  /** Number of trailing characters of `s` that belong to `ws`. */
  function Trailing(s: string, ws: set<char>): (n: nat)
    ensures n <= |s| && AllIn(s[|s| - n..], ws)
    ensures n == |s| || s[|s| - n - 1] !in ws
  {
    if s != [] && s[|s| - 1] in ws then
      var k := Trailing(s[..|s| - 1], ws);
      1 + k
    else 0
  }

  /** `strip()` / `trim()`: drop every leading and trailing character of `ws`.
      The result is the slice of `s` between two whitespace runs, and it
      neither begins nor ends with whitespace. */
  function Trim(s: string, ws: set<char>): (r: string)
    ensures exists a, b | 0 <= a <= b <= |s| :: r == s[a..b] && AllIn(s[..a], ws) && AllIn(s[b..], ws)
    ensures r == [] || (r[0] !in ws && r[|r| - 1] !in ws)
  {
    var a := Leading(s, ws);
    var t := s[a..];
    var b := |t| - Trailing(t, ws);
    assert t[..b] == s[a..a + b];
    assert t[b..] == s[a + b..];
    assert t[..b] == s[a..a + b] && AllIn(s[..a], ws) && AllIn(s[a + b..], ws);
    t[..b]
  }

  /** A string strips to nothing exactly when it is all whitespace. */
  lemma TrimEmptyIff(s: string, ws: set<char>)
    ensures Trim(s, ws) == [] <==> AllIn(s, ws)
  {
    var a := Leading(s, ws);
    if AllIn(s, ws) {
      assert a == |s|;
    } else {
      var i :| 0 <= i < |s| && s[i] !in ws;
      assert i >= a;
      var t := s[a..];
      assert t[0] !in ws;
      assert Trailing(t, ws) < |t|;
    }
  }

  /** Stripping leaves a string without surrounding whitespace unchanged. */
  lemma TrimUnpadded(s: string, ws: set<char>)
    requires s == [] || (s[0] !in ws && s[|s| - 1] !in ws)
    ensures Trim(s, ws) == s
  {
    assert Leading(s, ws) == 0;
    assert s[0..] == s;
    assert Trailing(s, ws) == 0;
  }

  /** A whitespace run followed by a non-whitespace character: the leading
      run is exactly that run. */
  lemma LeadingPadded(before: string, rest: string, ws: set<char>)
    requires AllIn(before, ws) && rest != [] && rest[0] !in ws
    ensures Leading(before + rest, ws) == |before|
  {
    var x := before + rest;
    var n := Leading(x, ws);
    assert forall k :: 0 <= k < |before| ==> x[k] == before[k];
    assert x[|before|] == rest[0];
    assert forall k :: 0 <= k < n ==> x[..n][k] == x[k];
  }

  /** A non-whitespace character followed by a whitespace run: the trailing
      run is exactly that run. */
  lemma TrailingPadded(rest: string, after: string, ws: set<char>)
    requires AllIn(after, ws) && rest != [] && rest[|rest| - 1] !in ws
    ensures Trailing(rest + after, ws) == |after|
  {
    var x := rest + after;
    var m := Trailing(x, ws);
    assert forall k :: |rest| <= k < |x| ==> x[k] == after[k - |rest|];
    assert x[|rest| - 1] == rest[|rest| - 1];
  }

  /** Stripping a string padded with whitespace on both sides gives back the
      unpadded string. */
  lemma TrimPadded(before: string, s: string, after: string, ws: set<char>)
    requires AllIn(before, ws) && AllIn(after, ws)
    requires s != [] && s[0] !in ws && s[|s| - 1] !in ws
    ensures Trim(before + s + after, ws) == s
  {
    var x := before + s + after;
    assert x == before + (s + after);
    LeadingPadded(before, s + after, ws);
    var t := x[|before|..];
    assert t == s + after;
    TrailingPadded(s, after, ws);
    assert t[..|t| - |after|] == s;
  }

  // ---------------------------------------------------------------------------
  // Substring search (`needle in s` in Python, `s.includes(needle)` in JavaScript)

  predicate OccursAt(s: string, needle: string, i: int)
  {
    0 <= i && i + |needle| <= |s| && s[i..i + |needle|] == needle
  }

  predicate Contains(s: string, needle: string)
  {
    exists i | 0 <= i <= |s| - |needle| :: OccursAt(s, needle, i)
  }

  /** An occurrence of `needle` inside `mid` is an occurrence inside `pre + mid + post`. */
  lemma ContainsWithin(pre: string, mid: string, post: string, needle: string)
    requires Contains(mid, needle)
    ensures Contains(pre + mid + post, needle)
  {
    var i :| 0 <= i <= |mid| - |needle| && OccursAt(mid, needle, i);
    var s := pre + mid + post;
    assert s[|pre| + i..|pre| + i + |needle|] == mid[i..i + |needle|];
    assert OccursAt(s, needle, |pre| + i);
  }

  /** A needle with no space in it cannot straddle a single-space separator. */
  lemma ContainsAcrossSpace(a: string, b: string, needle: string)
    requires ' ' !in needle
    ensures Contains(a + " " + b, needle) <==> Contains(a, needle) || Contains(b, needle)
  {
    var s := a + " " + b;
    if Contains(a, needle) {
      ContainsWithin([], a, " " + b, needle);
      assert [] + a + (" " + b) == s;
    }
    if Contains(b, needle) {
      ContainsWithin(a + " ", b, [], needle);
      assert a + " " + b + [] == s;
    }
    if Contains(s, needle) {
      var i :| 0 <= i <= |s| - |needle| && OccursAt(s, needle, i);
      if i + |needle| <= |a| {
        assert a[i..i + |needle|] == s[i..i + |needle|];
        assert OccursAt(a, needle, i);
      } else {
        AfterSpace(a, b, needle, i);
      }
    }
  }

  /** An occurrence reaching past `a` in `a + " " + b` of a needle with no
      space lies wholly inside `b`. */
  lemma AfterSpace(a: string, b: string, needle: string, i: nat)
    requires ' ' !in needle && OccursAt(a + " " + b, needle, i) && i + |needle| > |a|
    ensures OccursAt(b, needle, i - |a| - 1)
  {
    var s := a + " " + b;
    assert i > |a| by {
      assert s[|a|] == ' ';
      assert forall j :: i <= j < i + |needle| ==> s[j] == needle[j - i];
    }
    var k := i - |a| - 1;
    assert s[|a| + 1..] == b;
    assert s[i..i + |needle|] == s[|a| + 1..][k..k + |needle|];
  }

  // ---------------------------------------------------------------------------
  // Joining (`sep.join(parts)` in Python, `Series.str.cat(sep=sep)` in pandas)

  function Join(sep: string, parts: seq<string>): string
  {
    if |parts| == 0 then ""
    else if |parts| == 1 then parts[0]
    else parts[0] + sep + Join(sep, parts[1..])
  }

  /** A space-free needle occurs in the space-joined text exactly when it
      occurs in one of the joined parts. */
  lemma {:induction false} ContainsInJoin(parts: seq<string>, needle: string)
    requires |needle| > 0 && ' ' !in needle
    ensures Contains(Join(" ", parts), needle) <==> exists k | 0 <= k < |parts| :: Contains(parts[k], needle)
  {
    if |parts| == 0 {
      assert !OccursAt("", needle, 0);
    } else if |parts| == 1 {
    } else {
      ContainsInJoin(parts[1..], needle);
      ContainsAcrossSpace(parts[0], Join(" ", parts[1..]), needle);
      if exists k | 0 <= k < |parts| :: Contains(parts[k], needle) {
        var k :| 0 <= k < |parts| && Contains(parts[k], needle);
        if k > 0 { assert parts[1..][k - 1] == parts[k]; }
      }
    }
  }

  // ---------------------------------------------------------------------------
  // Decimal integers: `int(text)` reads them, `str(n)` writes them

  predicate IsDigit(ch: char) { '0' <= ch <= '9' }

  predicate IsDigits(s: string)
  {
    |s| > 0 && forall i :: 0 <= i < |s| ==> IsDigit(s[i])
  }

  function DigitValue(ch: char): nat
    requires IsDigit(ch)
  {
    ch as int - '0' as int
  }

  function DigitChar(d: nat): (ch: char)
    requires d < 10
    ensures IsDigit(ch) && DigitValue(ch) == d
  {
    ('0' as int + d) as char
  }

  /** Value of a run of decimal digits, most significant first. */
  function DigitsValue(s: string): nat
    requires forall i :: 0 <= i < |s| ==> IsDigit(s[i])
  {
    if s == [] then 0 else DigitsValue(s[..|s| - 1]) * 10 + DigitValue(s[|s| - 1])
  }

  /** Integer text: surrounding characters of `ws` are ignored, then an
      optional sign and at least one decimal digit must make up the rest;
      anything else is rejected. `int(text)` skips `PyWhitespace` (and raises
      ValueError on a rejection); pandas' number parser skips only
      `AsciiWhitespace`. */
  function ParseInt(s: string, ws: set<char>): (r: Option<int>)
    ensures r.Some? ==> exists a, b | 0 <= a < b <= |s| :: IsDigits(s[a..b])
  {
    var t := Trim(s, ws);
    if IsDigits(t) then Some(DigitsValue(t))
    else if |t| > 0 && (t[0] == '+' || t[0] == '-') && IsDigits(t[1..]) then
      var v: int := DigitsValue(t[1..]);
      Some(if t[0] == '-' then -v else v)
    else None
  }

  /** `str(n)` for a natural number: its shortest decimal form. */
  function NatToString(n: nat): (r: string)
    ensures IsDigits(r) && DigitsValue(r) == n
    ensures r[0] != '0' || n == 0
  {
    if n < 10 then [DigitChar(n)]
    else
      var r := NatToString(n / 10) + [DigitChar(n % 10)];
      assert r[..|r| - 1] == NatToString(n / 10);
      r
  }

  /** `str(n)` for an integer. */
  function IntToString(n: int): string
  {
    if n < 0 then "-" + NatToString(-n) else NatToString(n)
  }

  /** `str(n)` ends in a digit, so it has no trailing whitespace. */
  lemma IntToStringUnpadded(n: int)
    ensures |IntToString(n)| > 0
    ensures IntToString(n)[|IntToString(n)| - 1] !in PyWhitespace
  {
    var s := IntToString(n);
    var d := NatToString(if n < 0 then -n else n);
    assert s[|s| - 1] == d[|d| - 1];
    assert IsDigit(d[|d| - 1]);
  }

  /** Reading back what `str` wrote gives the same integer, whatever
      whitespace is skipped, so long as no digit or minus sign counts as
      whitespace. */
  lemma ParseIntRoundTrip(n: int, ws: set<char>)
    requires forall ch :: ch in ws ==> !IsDigit(ch) && ch != '-'
    ensures ParseInt(IntToString(n), ws) == Some(n)
  {
    var s := IntToString(n);
    assert !IsDigit('-');
    assert forall i :: 0 <= i < |s| ==> s[i] !in ws;
    TrimUnpadded(s, ws);
    if n < 0 {
      assert s[1..] == NatToString(-n);
    }
  }

  // ---------------------------------------------------------------------------
  // Infinite numbers, as float parsing spells them

  /** The spellings of an infinite number that float parsing accepts, in
      lower case. */
  const InfinitySpellings: set<string> := {"inf", "+inf", "-inf", "infinity", "+infinity", "-infinity"}

  /** The whole text, compared without regard to case and with nothing
      stripped, spells an infinite number. */
  predicate IsInfinity(s: string)
  {
    Lower(s) in InfinitySpellings
  }

  /** Every spelling of infinity begins with `i` or a sign and ends in a letter. */
  lemma InfinitySpellingEnds(l: string)
    requires l in InfinitySpellings
    ensures |l| > 1 && (l[0] == 'i' || l[0] == '+' || l[0] == '-')
    ensures l[|l| - 1] == 'f' || l[|l| - 1] == 'y'
  {
  }

  /** No spelling of infinity reads as an integer. */
  lemma InfinityNotInteger(s: string)
    requires IsInfinity(s)
    ensures ParseInt(s, AsciiWhitespace).None?
  {
    var l := Lower(s);
    InfinitySpellingEnds(l);
    var last := s[|s| - 1];
    assert LowerChar(s[0]) == l[0] && LowerChar(last) == l[|l| - 1];
    TrimUnpadded(s, AsciiWhitespace);
    assert !IsDigit(last);
    assert !IsDigits(s);
    assert !IsDigits(s[1..]) by {
      assert s[1..][|s| - 2] == last;
    }
  }

  /** Text without a digit is not integer text. */
  lemma NoDigitNoInteger(s: string, ws: set<char>)
    requires forall i :: 0 <= i < |s| ==> !IsDigit(s[i])
    ensures ParseInt(s, ws).None?
  {
  }
}
