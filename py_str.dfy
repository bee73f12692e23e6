/** The Python string built-ins the configuration loader relies on, stated on
    `string` (a sequence of Unicode scalar values): `str.strip(chars)`,
    `str.split(sep)`, `str.lower()` on ASCII letters and the base-10 `int(str)`
    conversion, together with a decimal rendering `FormatInt` that serves as the
    inverse of `ParseInt`. */
module PyStr {
  import opened Wrappers

  /** The characters `int()` skips around a literal: the ASCII space, tab, line
      feed, vertical tab, form feed and carriage return, and the non-ASCII
      Unicode spaces that `int()` first turns into a blank. The information
      separators U+001C to U+001F count as space for `str.isspace()` but are
      not skipped by `int()`, so they are not in this set. */
  const Whitespace: set<char> := {
    '\t', '\n', '\U{B}', '\U{C}', '\r', ' ',
    '\U{85}', '\U{A0}', '\U{1680}',
    '\U{2000}', '\U{2001}', '\U{2002}', '\U{2003}', '\U{2004}', '\U{2005}',
    '\U{2006}', '\U{2007}', '\U{2008}', '\U{2009}', '\U{200A}',
    '\U{2028}', '\U{2029}', '\U{202F}', '\U{205F}', '\U{3000}'
  }

  predicate IsDigit(c: char) {
    '0' <= c <= '9'
  }

  // ---------------------------------------------------------------------------
  // str.strip(chars)
  // ---------------------------------------------------------------------------

  /** `s.lstrip(cs)`. */
  function StripLeft(s: string, cs: set<char>): string
    decreases |s|
  {
    if |s| > 0 && s[0] in cs then StripLeft(s[1..], cs) else s
  }

  /** `s.rstrip(cs)`. */
  function StripRight(s: string, cs: set<char>): string
    decreases |s|
  {
    if |s| > 0 && s[|s| - 1] in cs then StripRight(s[..|s| - 1], cs) else s
  }

  /** `s.strip(cs)`: drop every leading and every trailing character in `cs`. */
  function Strip(s: string, cs: set<char>): string {
    StripRight(StripLeft(s, cs), cs)
  }

  lemma {:induction false} StripLeftSpan(s: string, cs: set<char>) returns (i: nat)
    ensures i <= |s| && StripLeft(s, cs) == s[i..]
    ensures forall k :: 0 <= k < i ==> s[k] in cs
    ensures i < |s| ==> s[i] !in cs
    decreases |s|
  {
    if |s| > 0 && s[0] in cs {
      var j := StripLeftSpan(s[1..], cs);
      i := j + 1;
      assert s[1..][j..] == s[i..];
      forall k | 0 <= k < i ensures s[k] in cs {
        if k > 0 { assert s[k] == s[1..][k - 1]; }
      }
    } else {
      i := 0;
    }
  }

  lemma {:induction false} StripRightSpan(s: string, cs: set<char>) returns (n: nat)
    ensures n <= |s| && StripRight(s, cs) == s[..n]
    ensures forall k :: n <= k < |s| ==> s[k] in cs
    ensures n > 0 ==> s[n - 1] !in cs
    decreases |s|
  {
    if |s| > 0 && s[|s| - 1] in cs {
      n := StripRightSpan(s[..|s| - 1], cs);
      assert s[..|s| - 1][..n] == s[..n];
      forall k | n <= k < |s| ensures s[k] in cs {
        if k < |s| - 1 { assert s[k] == s[..|s| - 1][k]; }
      }
    } else {
      n := |s|;
    }
  }

  /** The result of `Strip` is a contiguous piece `s[i..i + |r|]` of the input,
      everything cut off on either side lies in `cs`, and the result neither
      starts nor ends with a character of `cs`. */
  lemma StripSpan(s: string, cs: set<char>) returns (i: nat)
    ensures i + |Strip(s, cs)| <= |s|
    ensures Strip(s, cs) == s[i..i + |Strip(s, cs)|]
    ensures forall k :: 0 <= k < i ==> s[k] in cs
    ensures forall k :: i + |Strip(s, cs)| <= k < |s| ==> s[k] in cs
    ensures Strip(s, cs) == [] || (Strip(s, cs)[0] !in cs && Strip(s, cs)[|Strip(s, cs)| - 1] !in cs)
  {
    i := StripLeftSpan(s, cs);
    var t := s[i..];
    var n := StripRightSpan(t, cs);
    var r := Strip(s, cs);
    assert r == t[..n];
    assert r == s[i..i + n];
    forall k | i + n <= k < |s| ensures s[k] in cs {
      assert s[k] == t[k - i];
    }
  }

  /** Padding made only of characters in `cs` is exactly what `Strip` removes. */
  lemma {:induction false} StripPadded(pre: string, t: string, post: string, cs: set<char>)
    requires forall k :: 0 <= k < |pre| ==> pre[k] in cs
    requires forall k :: 0 <= k < |post| ==> post[k] in cs
    requires t != [] && t[0] !in cs && t[|t| - 1] !in cs
    ensures Strip(pre + t + post, cs) == t
  {
    var s := pre + t + post;
    StripLeftPadded(pre, t + post, cs);
    assert s == pre + (t + post);
    StripRightPadded(t, post, cs);
  }

  lemma {:induction false} StripLeftPadded(pre: string, rest: string, cs: set<char>)
    requires forall k :: 0 <= k < |pre| ==> pre[k] in cs
    requires rest != [] && rest[0] !in cs
    ensures StripLeft(pre + rest, cs) == rest
    decreases |pre|
  {
    if pre != [] {
      assert (pre + rest)[1..] == pre[1..] + rest;
      StripLeftPadded(pre[1..], rest, cs);
    } else {
      assert pre + rest == rest;
    }
  }

  lemma {:induction false} StripRightPadded(t: string, post: string, cs: set<char>)
    requires forall k :: 0 <= k < |post| ==> post[k] in cs
    requires t != [] && t[|t| - 1] !in cs
    ensures StripRight(t + post, cs) == t
    decreases |post|
  {
    if post != [] {
      var s := t + post;
      assert s[..|s| - 1] == t + post[..|post| - 1];
      StripRightPadded(t, post[..|post| - 1], cs);
    } else {
      assert t + post == t;
    }
  }

  // ---------------------------------------------------------------------------
  // str.split(sep) and its inverse, sep.join(fields)
  // ---------------------------------------------------------------------------

  /** `s.split(sep)` with an explicit one-character separator: one field per
      separator plus one, none of which contains the separator (an empty string
      still gives one empty field). */
  function Split(s: string, sep: char): (r: seq<string>)
    ensures |r| == multiset(s)[sep] + 1
    ensures forall k :: 0 <= k < |r| ==> sep !in r[k]
    decreases |s|
  {
    if |s| == 0 then [""]
    else
      var rest := Split(s[1..], sep);
      assert s == [s[0]] + s[1..];
      if s[0] == sep then [""] + rest
      else [[s[0]] + rest[0]] + rest[1..]
  }

  /** `sep.join(fields)`. */
  function Join(fields: seq<string>, sep: char): string
    requires |fields| > 0
  {
    if |fields| == 1 then fields[0] else fields[0] + [sep] + Join(fields[1..], sep)
  }

  /** The joined string ends where its last field ends. */
  lemma {:induction false} JoinLast(fields: seq<string>, sep: char)
    requires |fields| > 0 && fields[|fields| - 1] != []
    ensures |Join(fields, sep)| > 0
    ensures Join(fields, sep)[|Join(fields, sep)| - 1] == fields[|fields| - 1][|fields[|fields| - 1]| - 1]
    decreases |fields|
  {
    if |fields| > 1 {
      JoinLast(fields[1..], sep);
    }
  }

  /** Splitting loses nothing: joining the fields back gives the input. */
  lemma {:induction false} JoinSplit(s: string, sep: char)
    ensures Join(Split(s, sep), sep) == s
    decreases |s|
  {
    if |s| > 0 {
      var rest := Split(s[1..], sep);
      JoinSplit(s[1..], sep);
      if s[0] == sep {
        JoinEmptyFirst(rest, sep);
      } else {
        JoinPrepend(s[0], rest, sep);
      }
    }
  }

  /** A leading empty field contributes just one separator. */
  lemma JoinEmptyFirst(fields: seq<string>, sep: char)
    requires |fields| > 0
    ensures Join([""] + fields, sep) == [sep] + Join(fields, sep)
  {
    assert ([""] + fields)[1..] == fields;
  }

  /** Prefixing the first field with a character prefixes the joined string with it. */
  lemma JoinPrepend(c: char, fields: seq<string>, sep: char)
    requires |fields| > 0
    ensures Join([[c] + fields[0]] + fields[1..], sep) == [c] + Join(fields, sep)
  {
    var r := [[c] + fields[0]] + fields[1..];
    if |fields| == 1 {
      assert r == [[c] + fields[0]];
    } else {
      assert r[1..] == fields[1..];
    }
  }


  /** A field without separators followed by the separator becomes a field of its own. */
  lemma {:induction false} SplitFieldThenSep(a: string, rest: string, sep: char)
    requires sep !in a
    ensures Split(a + [sep] + rest, sep) == [a] + Split(rest, sep)
    decreases |a|
  {
    if a == [] {
      assert a + [sep] + rest == [sep] + rest;
      assert ([sep] + rest)[1..] == rest;
    } else {
      var s := a + [sep] + rest;
      assert s[0] == a[0];
      assert s[1..] == a[1..] + [sep] + rest;
      SplitFieldThenSep(a[1..], rest, sep);
      assert [a[0]] + a[1..] == a;
    }
  }

  /** A string without separators is a single field. */
  lemma {:induction false} SplitNoSep(a: string, sep: char)
    requires sep !in a
    ensures Split(a, sep) == [a]
    decreases |a|
  {
    if a != [] {
      SplitNoSep(a[1..], sep);
      assert [a[0]] + a[1..] == a;
    }
  }

  /** Joining fields that contain no separator and splitting again gives the
      fields back. */
  lemma {:induction false} SplitJoin(fields: seq<string>, sep: char)
    requires |fields| > 0
    requires forall k :: 0 <= k < |fields| ==> sep !in fields[k]
    ensures Split(Join(fields, sep), sep) == fields
    decreases |fields|
  {
    if |fields| == 1 {
      SplitNoSep(fields[0], sep);
    } else {
      SplitFieldThenSep(fields[0], Join(fields[1..], sep), sep);
      SplitJoin(fields[1..], sep);
      assert [fields[0]] + fields[1..] == fields;
    }
  }

  // ---------------------------------------------------------------------------
  // int(str), base 10
  // ---------------------------------------------------------------------------

  /** The digit part of a base-10 literal as `int()` accepts it: ASCII digits,
      with single underscores allowed between two digits. */
  predicate WellFormedDigits(s: string) {
    && |s| > 0
    && IsDigit(s[0])
    && IsDigit(s[|s| - 1])
    && (forall k :: 0 <= k < |s| ==> IsDigit(s[k]) || s[k] == '_')
    && (forall k :: 0 <= k < |s| - 1 ==> s[k] == '_' ==> s[k + 1] != '_')
  }

  /** The number the digits of `s` spell, underscores skipped. */
  function DigitsValue(s: string): nat
    decreases |s|
  {
    if |s| == 0 then 0
    else
      var c := s[|s| - 1];
      if IsDigit(c) then DigitsValue(s[..|s| - 1]) * 10 + (c as int - '0' as int)
      else DigitsValue(s[..|s| - 1])
  }

  /** `int(s)`: `None` where Python raises `ValueError`. Surrounding whitespace
      is ignored and one leading sign is allowed. */
  function ParseInt(s: string): Option<int> {
    ParseSigned(Strip(s, Whitespace))
  }

  /** A literal with the whitespace already removed: an optional sign, then digits. */
  function ParseSigned(t: string): Option<int> {
    if |t| > 0 && (t[0] == '+' || t[0] == '-') then
      if WellFormedDigits(t[1..]) then
        var m: int := DigitsValue(t[1..]);
        Some(if t[0] == '-' then -m else m)
      else None
    else if WellFormedDigits(t) then Some(DigitsValue(t))
    else None
  }

  function DigitChar(d: nat): (c: char)
    requires d < 10
    ensures IsDigit(c) && c as int - '0' as int == d
  {
    ('0' as int + d) as char
  }

  /** Decimal rendering of a natural number, most significant digit first. */
  function FormatNat(n: nat): (s: string)
    decreases n
  {
    if n < 10 then [DigitChar(n)] else FormatNat(n / 10) + [DigitChar(n % 10)]
  }

  /** Decimal rendering of an integer, `str(n)` in Python. */
  function FormatInt(n: int): string {
    if n < 0 then "-" + FormatNat(-n) else FormatNat(n)
  }

  lemma {:induction false} FormatNatDigits(n: nat)
    ensures |FormatNat(n)| > 0
    ensures forall k :: 0 <= k < |FormatNat(n)| ==> IsDigit(FormatNat(n)[k])
    ensures DigitsValue(FormatNat(n)) == n
    decreases n
  {
    if n >= 10 {
      FormatNatDigits(n / 10);
      var s := FormatNat(n);
      assert s[..|s| - 1] == FormatNat(n / 10);
    }
  }

  /** `int(str(n)) == n`: the rendering parses back to the same number. */
  lemma ParseFormatInt(n: int)
    ensures ParseInt(FormatInt(n)) == Some(n)
  {
    var m: nat := if n < 0 then -n else n;
    var d := FormatNat(m);
    FormatNatDigits(m);
    assert WellFormedDigits(d);
    var s := FormatInt(n);
    assert s == if n < 0 then "-" + d else d;
    NotWhitespace(s[0]);
    NotWhitespace(s[|s| - 1]);
    StripPadded([], s, [], Whitespace);
    assert [] + s + [] == s;
    assert ParseInt(s) == ParseSigned(s);
    if n < 0 {
      assert s[1..] == d;
    }
  }

  lemma NotWhitespace(c: char)
    requires IsDigit(c) || c == '-' || c == '+'
    ensures c !in Whitespace
  {
  }

  /** Shape of `str(n)`: non-empty, only digits and a leading minus sign,
      ending in a digit. */
  lemma FormatIntShape(n: int)
    ensures |FormatInt(n)| > 0
    ensures IsDigit(FormatInt(n)[0]) || FormatInt(n)[0] == '-'
    ensures IsDigit(FormatInt(n)[|FormatInt(n)| - 1])
    ensures forall k :: 0 <= k < |FormatInt(n)| ==> IsDigit(FormatInt(n)[k]) || FormatInt(n)[k] == '-'
  {
    FormatNatDigits(if n < 0 then -n else n);
  }

  /** `int()` ignores whitespace on either side of the literal. */
  lemma ParseIntPadded(pre: string, t: string, post: string)
    requires forall k :: 0 <= k < |pre| ==> pre[k] in Whitespace
    requires forall k :: 0 <= k < |post| ==> post[k] in Whitespace
    requires t != [] && t[0] !in Whitespace && t[|t| - 1] !in Whitespace
    ensures ParseInt(pre + t + post) == ParseInt(t)
  {
    StripPadded(pre, t, post, Whitespace);
    StripPadded([], t, [], Whitespace);
    assert [] + t + [] == t;
  }

  /** `int(" " + str(n)) == n`, the shape of every field after the first in a
      written tuple. */
  lemma ParseSpacedFormatInt(n: int)
    ensures ParseInt(" " + FormatInt(n)) == Some(n)
  {
    var t := FormatInt(n);
    FormatIntShape(n);
    ParseFormatInt(n);
    NotWhitespace(t[0]);
    NotWhitespace(t[|t| - 1]);
    ParseIntPadded(" ", t, "");
    assert " " + t + "" == " " + t;
  }

  /** `str(n)` holds no comma. */
  lemma FormatIntNoComma(n: int)
    ensures ',' !in FormatInt(n)
  {
    FormatIntShape(n);
  }

  /** A blank string (empty or all whitespace) is not an integer. */
  lemma ParseIntBlank(s: string)
    requires forall k :: 0 <= k < |s| ==> s[k] in Whitespace
    ensures ParseInt(s) == None
  {
    var i := StripSpan(s, Whitespace);
  }

  /** A character that is neither a digit, an underscore, a sign nor
      whitespace makes `int()` fail: there is no silent default. */
  lemma ParseIntRejectsStray(s: string, j: nat)
    requires j < |s|
    requires !IsDigit(s[j]) && s[j] !in {'_', '+', '-'} && s[j] !in Whitespace
    ensures ParseInt(s) == None
  {
    var t := Strip(s, Whitespace);
    var i := StripSpan(s, Whitespace);
    assert i <= j < i + |t|;
    assert t[j - i] == s[j];
    if |t| > 0 && (t[0] == '+' || t[0] == '-') {
      assert j - i >= 1;
      assert t[1..][j - i - 1] == s[j];
    }
  }

  /** The information separators are not skipped: `int("\x1c5")` fails. */
  lemma ParseIntRejectsSeparator()
    ensures ParseInt("\U{1C}5") == None
  {
    ParseIntRejectsStray("\U{1C}5", 0);
  }

  // ---------------------------------------------------------------------------
  // str.lower(), restricted to ASCII
  // ---------------------------------------------------------------------------

  function LowerChar(c: char): (l: char)
    ensures !('A' <= l <= 'Z')
  {
    if 'A' <= c <= 'Z' then (c as int + 32) as char else c
  }

  /** `s.lower()` for ASCII letters; every other character is kept. */
  function Lower(s: string): (r: string)
    ensures |r| == |s|
    ensures forall k :: 0 <= k < |s| ==> r[k] == LowerChar(s[k])
  {
    seq(|s|, k requires 0 <= k < |s| => LowerChar(s[k]))
  }
}
