/** The JavaScript string primitives the blog relies on: the whitespace set of
    `trim` and `\s`, the line terminators of regular expressions, decimal
    rendering and reading of numbers, `<` on strings and
    `Array.prototype.join`. A character here is one Unicode code point. */
module JsString {
  import opened Wrappers

  /** WhiteSpace and LineTerminator code points of ECMAScript: what `\s`
      matches and what `String.prototype.trim` removes. */
  predicate IsWhitespace(c: char) {
    || c == '\t' || c == '\n' || c == '\U{000B}' || c == '\U{000C}' || c == '\r' || c == ' '
    || c == '\U{00A0}' || c == '\U{1680}' || ('\U{2000}' <= c <= '\U{200A}')
    || c == '\U{2028}' || c == '\U{2029}' || c == '\U{202F}' || c == '\U{205F}'
    || c == '\U{3000}' || c == '\U{FEFF}'
  }

  /** The characters `.` does not match and around which `^` and `$` match
      in multiline mode. */
  predicate IsLineTerminator(c: char) {
    c == '\n' || c == '\r' || c == '\U{2028}' || c == '\U{2029}'
  }

  lemma LineTerminatorIsWhitespace(c: char)
    requires IsLineTerminator(c)
    ensures IsWhitespace(c)
  {
  }

  /** No line terminator among `s[from..to]`. */
  predicate NoLineBreak(s: string, from: nat, to: nat)
    requires from <= to <= |s|
  {
    forall m :: from <= m < to ==> !IsLineTerminator(s[m])
  }

  predicate StartsWith(s: string, prefix: string) {
    |prefix| <= |s| && s[..|prefix|] == prefix
  }

  predicate EndsWith(s: string, suffix: string) {
    |suffix| <= |s| && s[|s| - |suffix|..] == suffix
  }

  /** Neither the first nor the last character is whitespace. */
  predicate Trimmed(s: string) {
    s == [] || (!IsWhitespace(s[0]) && !IsWhitespace(s[|s| - 1]))
  }

  /** Length of the leading whitespace run. */
  function LeadingWhitespace(s: string): (n: nat)
    ensures n <= |s|
    ensures forall i :: 0 <= i < n ==> IsWhitespace(s[i])
    ensures n == |s| || !IsWhitespace(s[n])
  {
    if s != [] && IsWhitespace(s[0]) then 1 + LeadingWhitespace(s[1..]) else 0
  }

  /** `String.prototype.trimStart`. */
  function TrimStart(s: string): string {
    s[LeadingWhitespace(s)..]
  }

  /** `String.prototype.trimEnd`: the prefix left before the trailing
      whitespace run. */
  function TrimEnd(s: string): (r: string)
    ensures |r| <= |s| && r == s[..|r|]
    ensures forall i :: |r| <= i < |s| ==> IsWhitespace(s[i])
    ensures r == [] || !IsWhitespace(r[|r| - 1])
  {
    if s != [] && IsWhitespace(s[|s| - 1]) then TrimEnd(s[..|s| - 1]) else s
  }

  /** `t` is what remains of `s` once every leading and every trailing
      whitespace character is removed: a trimmed slice that starts right
      after the leading run and has only whitespace after it. */
  predicate IsTrimOf(t: string, s: string) {
    var lead := LeadingWhitespace(s);
    && Trimmed(t) && lead + |t| <= |s| && t == s[lead..lead + |t|]
    && forall i :: lead + |t| <= i < |s| ==> IsWhitespace(s[i])
  }

  /** `String.prototype.trim`. */
  function Trim(s: string): (r: string)
    ensures IsTrimOf(r, s)
    ensures Trimmed(s) ==> r == s
  {
    TrimEnd(TrimStart(s))
  }

  /** A string has only one trim: `IsTrimOf` pins `trim` down. */
  lemma TrimUnique(s: string, t: string)
    requires IsTrimOf(t, s)
    ensures t == Trim(s)
  {
    assert |t| == |Trim(s)|;
  }

  /** Every character of a character class absent from `s` is absent from
      its trim. */
  lemma TrimAvoids(s: string, cs: set<char>)
    requires forall i :: 0 <= i < |s| ==> s[i] !in cs
    ensures forall i :: 0 <= i < |Trim(s)| ==> Trim(s)[i] !in cs
  {
    var r, lead := Trim(s), LeadingWhitespace(s);
    assert forall i :: 0 <= i < |r| ==> r[i] == s[lead + i];
  }

  /** A string with no whitespace character at all is its own trim. */
  lemma TrimNoWhitespace(s: string)
    requires forall i :: 0 <= i < |s| ==> !IsWhitespace(s[i])
    ensures Trim(s) == s
  {
  }

  /** `s.replace(/[...]/g, '')` for a character class `cs`: every character
      of `cs` removed, all others kept in order. */
  function Strip(s: string, cs: set<char>): (r: string)
    ensures |r| <= |s|
    ensures forall i :: 0 <= i < |r| ==> r[i] !in cs
    ensures forall c :: c !in cs ==> multiset(r)[c] == multiset(s)[c]
    ensures (forall i :: 0 <= i < |s| ==> s[i] !in cs) ==> r == s
  {
    if s == [] then []
    else
      var rest := Strip(s[1..], cs);
      assert s == [s[0]] + s[1..];
      if s[0] in cs then rest else [s[0]] + rest
  }

  /** A string made only of stripped characters leaves nothing. */
  lemma {:induction false} StripAll(s: string, cs: set<char>)
    requires forall i :: 0 <= i < |s| ==> s[i] in cs
    ensures Strip(s, cs) == []
    decreases |s|
  {
    if s != [] {
      StripAll(s[1..], cs);
    }
  }

  /** Stripping works piecewise, so it keeps the order of what it keeps. */
  lemma {:induction false} StripAppend(a: string, b: string, cs: set<char>)
    ensures Strip(a + b, cs) == Strip(a, cs) + Strip(b, cs)
    decreases |a|
  {
    if a == [] {
      assert a + b == b;
    } else {
      assert (a + b)[1..] == a[1..] + b;
      assert (a + b)[0] == a[0];
      StripAppend(a[1..], b, cs);
    }
  }

  /** The characters of `s` that satisfy `keep`, in order: what
      `replace(/[^...]/g, '')` leaves for the class `keep` describes. */
  function Filter(s: string, keep: char -> bool): (r: string)
    ensures |r| <= |s|
    ensures forall i :: 0 <= i < |r| ==> keep(r[i])
    decreases |s|
  {
    if s == [] then []
    else
      var rest := Filter(s[1..], keep);
      assert s == [s[0]] + s[1..];
      if keep(s[0]) then [s[0]] + rest else rest
  }

  /** A text whose every character is kept is left as it is. */
  lemma {:induction false} FilterKeepsAll(s: string, keep: char -> bool)
    requires forall i :: 0 <= i < |s| ==> keep(s[i])
    ensures Filter(s, keep) == s
    decreases |s|
  {
    if s != [] {
      FilterKeepsAll(s[1..], keep);
      assert s == [s[0]] + s[1..];
    }
  }

  /** Nothing is kept exactly when no character is kept. */
  lemma {:induction false} FilterEmpty(s: string, keep: char -> bool)
    ensures Filter(s, keep) == [] <==> forall i :: 0 <= i < |s| ==> !keep(s[i])
    decreases |s|
  {
    if s != [] {
      FilterEmpty(s[1..], keep);
      assert forall i :: 1 <= i < |s| ==> s[i] == s[1..][i - 1];
    }
  }

  /** Filtering works piecewise. */
  lemma {:induction false} FilterAppend(a: string, b: string, keep: char -> bool)
    ensures Filter(a + b, keep) == Filter(a, keep) + Filter(b, keep)
    decreases |a|
  {
    if a == [] {
      assert a + b == b;
    } else {
      assert (a + b)[1..] == a[1..] + b;
      assert (a + b)[0] == a[0];
      FilterAppend(a[1..], b, keep);
    }
  }

  /** Filtering by a wider class first changes nothing. */
  lemma {:induction false} FilterWithin(s: string, wide: char -> bool, keep: char -> bool)
    requires forall c :: keep(c) ==> wide(c)
    ensures Filter(Filter(s, wide), keep) == Filter(s, keep)
    decreases |s|
  {
    if s != [] {
      FilterWithin(s[1..], wide, keep);
    }
  }

  /** Trimming drops no character that is not whitespace. */
  lemma TrimFilter(s: string, keep: char -> bool)
    requires forall c :: keep(c) ==> !IsWhitespace(c)
    ensures Filter(Trim(s), keep) == Filter(s, keep)
  {
    var r, lead := Trim(s), LeadingWhitespace(s);
    var before, after := s[..lead], s[lead + |r|..];
    assert s == before + r + after;
    FilterAroundWhitespace(before, r, after, keep);
  }

  /** Filtering loses nothing when only whitespace surrounds the text. */
  lemma FilterAroundWhitespace(before: string, mid: string, after: string, keep: char -> bool)
    requires forall i :: 0 <= i < |before| ==> IsWhitespace(before[i])
    requires forall i :: 0 <= i < |after| ==> IsWhitespace(after[i])
    requires forall c :: keep(c) ==> !IsWhitespace(c)
    ensures Filter(before + mid + after, keep) == Filter(mid, keep)
  {
    FilterAppend(before + mid, after, keep);
    FilterAppend(before, mid, keep);
    FilterWhitespace(before, keep);
    FilterWhitespace(after, keep);
  }

  /** Whitespace alone leaves nothing when the class has no whitespace. */
  lemma {:induction false} FilterWhitespace(s: string, keep: char -> bool)
    requires forall i :: 0 <= i < |s| ==> IsWhitespace(s[i])
    requires forall c :: keep(c) ==> !IsWhitespace(c)
    ensures Filter(s, keep) == []
    decreases |s|
  {
    if s != [] {
      FilterWhitespace(s[1..], keep);
    }
  }

  predicate IsDigit(c: char) {
    '0' <= c <= '9'
  }

  function DigitChar(d: nat): (c: char)
    requires d < 10
    ensures IsDigit(c)
  {
    "0123456789"[d]
  }

  function DigitValue(c: char): (d: nat)
    requires IsDigit(c)
    ensures d < 10
  {
    (c as int - '0' as int) as nat
  }

  lemma DigitRoundTrip(d: nat)
    requires d < 10
    ensures DigitValue(DigitChar(d)) == d
  {
  }

  /** Decimal rendering of a non-negative integer, as `String(n)` and
      template interpolation produce it: digits only, no leading zero. */
  function NatToString(n: nat): (r: string)
    ensures |r| >= 1
    ensures forall i :: 0 <= i < |r| ==> IsDigit(r[i])
    ensures r[0] == '0' ==> n == 0
    decreases n
  {
    if n < 10 then [DigitChar(n)] else NatToString(n / 10) + [DigitChar(n % 10)]
  }

  /** Reads a run of decimal digits, most significant first. */
  function ParseNat(s: string): nat
    requires forall i :: 0 <= i < |s| ==> IsDigit(s[i])
  {
    if s == [] then 0 else ParseNat(s[..|s| - 1]) * 10 + DigitValue(s[|s| - 1])
  }

  /** Decimal rendering loses nothing: reading it back gives the number. */
  lemma {:induction false} NatToStringRoundTrip(n: nat)
    ensures ParseNat(NatToString(n)) == n
    decreases n
  {
    var r := NatToString(n);
    if n < 10 {
      DigitRoundTrip(n);
    } else {
      var q := NatToString(n / 10);
      assert r == q + [DigitChar(n % 10)];
      assert r[..|r| - 1] == q;
      DigitRoundTrip(n % 10);
      NatToStringRoundTrip(n / 10);
    }
  }

  /** `String(i)` for an integer `i`, negative ones with a leading `-`. */
  function IntToString(i: int): (r: string)
    ensures |r| >= 1
    ensures i >= 0 ==> r == NatToString(i)
    ensures i < 0 ==> r[0] == '-' && r[1..] == NatToString(-i)
  {
    if i < 0 then "-" + NatToString(-i) else NatToString(i)
  }

  /** Concatenation regroups freely; used to line a text up with the
      order in which a reader consumes it. */
  lemma Regroup(a: string, b: string, c: string)
    ensures a + b + c == a + (b + c)
  {
  }

  /** Dropping the last character of a concatenation whose second part
      is not empty. */
  lemma DropLast(a: string, b: string)
    requires b != []
    ensures (a + b)[..|a + b| - 1] == a + b[..|b| - 1]
  {
  }

  /** Dropping a prefix of the first part of a concatenation. */
  lemma DropFront(a: string, b: string, k: nat)
    requires k <= |a|
    ensures (a + b)[k..] == a[k..] + b
  {
  }

  /** The length of the run of decimal digits `s` starts with. */
  function LeadingDigits(s: string): (n: nat)
    ensures n <= |s|
    ensures forall i :: 0 <= i < n ==> IsDigit(s[i])
    ensures n == |s| || !IsDigit(s[n])
  {
    if s != [] && IsDigit(s[0]) then 1 + LeadingDigits(s[1..]) else 0
  }

  /** Reads the decimal number `s` starts with, and what follows it; none
      when `s` does not start with a digit. */
  function ReadNat(s: string): (r: Option<(nat, string)>)
    ensures r.Some? ==> |r.value.1| < |s| && r.value.1 == s[|s| - |r.value.1|..]
  {
    var n := LeadingDigits(s);
    if n == 0 then None else Some((ParseNat(s[..n]), s[n..]))
  }

  /** Reads an optionally negative decimal integer, as a JSON or YAML
      reader reads one, and what follows it. */
  function ReadInt(s: string): (r: Option<(int, string)>)
    ensures r.Some? ==> |r.value.1| < |s|
  {
    if s != [] && s[0] == '-' then
      match ReadNat(s[1..])
      case Some((n, rest)) => Some((-(n as int), rest))
      case None => None
    else
      match ReadNat(s)
      case Some((n, rest)) => Some((n, rest))
      case None => None
  }

  lemma {:induction false} LeadingDigitsAppend(d: string, rest: string)
    requires forall i :: 0 <= i < |d| ==> IsDigit(d[i])
    requires rest == [] || !IsDigit(rest[0])
    ensures LeadingDigits(d + rest) == |d|
    decreases |d|
  {
    if d == [] {
      assert d + rest == rest;
    } else {
      assert (d + rest)[1..] == d[1..] + rest;
      LeadingDigitsAppend(d[1..], rest);
    }
  }

  /** A number written in decimal reads back, with whatever follows, as
      long as no digit follows. */
  lemma ReadNatString(n: nat, rest: string)
    requires rest == [] || !IsDigit(rest[0])
    ensures ReadNat(NatToString(n) + rest) == Some((n, rest))
  {
    var d := NatToString(n);
    LeadingDigitsAppend(d, rest);
    assert (d + rest)[..|d|] == d;
    assert (d + rest)[|d|..] == rest;
    NatToStringRoundTrip(n);
  }

  /** `String(i)` reads back as `i`. */
  lemma ReadIntString(i: int, rest: string)
    requires rest == [] || !IsDigit(rest[0])
    ensures ReadInt(IntToString(i) + rest) == Some((i, rest))
  {
    if i < 0 {
      ReadNegativeString(-i, rest);
    } else {
      var u := NatToString(i) + rest;
      ReadNatString(i, rest);
      ReadNonNegative(u, i, rest);
    }
  }

  lemma ReadNegativeString(n: nat, rest: string)
    requires n > 0
    requires rest == [] || !IsDigit(rest[0])
    ensures ReadInt(IntToString(-(n as int)) + rest) == Some((-(n as int), rest))
  {
    var u := NatToString(n) + rest;
    ReadNatString(n, rest);
    assert IntToString(-(n as int)) + rest == "-" + u;
    ReadNegative(u, n, rest);
  }

  /** Without a minus sign the number reads as it is. */
  lemma ReadNonNegative(u: string, n: nat, rest: string)
    requires ReadNat(u) == Some((n, rest))
    ensures ReadInt(u) == Some((n as int, rest))
  {
    assert IsDigit(u[0]);
  }

  /** A minus sign negates the number that follows it. */
  lemma ReadNegative(u: string, n: nat, rest: string)
    requires ReadNat(u) == Some((n, rest))
    ensures ReadInt("-" + u) == Some((-(n as int), rest))
  {
    assert ("-" + u)[1..] == u;
  }

  /** `a < b` on JavaScript strings: lexicographic order of characters,
      a proper prefix preceding its extensions. */
  predicate LexLess(a: string, b: string)
    decreases |a|
  {
    if |a| == 0 then |b| > 0
    else if |b| == 0 then false
    else if a[0] != b[0] then a[0] < b[0]
    else LexLess(a[1..], b[1..])
  }

  lemma {:induction false} LexIrreflexive(a: string)
    ensures !LexLess(a, a)
    decreases |a|
  {
    if |a| > 0 {
      LexIrreflexive(a[1..]);
    }
  }

  lemma {:induction false} LexAsymmetric(a: string, b: string)
    requires LexLess(a, b)
    ensures !LexLess(b, a)
    decreases |a|
  {
    if |a| > 0 && |b| > 0 && a[0] == b[0] {
      LexAsymmetric(a[1..], b[1..]);
    }
  }

  /** If `a < c` then every `b` lies above `a` or below `c`: the
      complement of `<` is transitive, which is what sorting relies on. */
  lemma {:induction false} LexNegativelyTransitive(a: string, b: string, c: string)
    requires LexLess(a, c)
    ensures LexLess(a, b) || LexLess(b, c)
    decreases |a|
  {
    if |a| > 0 && |b| > 0 && a[0] == b[0] && a[0] == c[0] {
      LexNegativelyTransitive(a[1..], b[1..], c[1..]);
    }
  }

  lemma {:induction false} LexTransitive(a: string, b: string, c: string)
    requires LexLess(a, b) && LexLess(b, c)
    ensures LexLess(a, c)
    decreases |a|
  {
    if |a| > 0 && a[0] == b[0] && b[0] == c[0] {
      LexTransitive(a[1..], b[1..], c[1..]);
    }
  }

  /** Distinct strings are always ordered one way or the other. */
  lemma {:induction false} LexConnected(a: string, b: string)
    requires a != b
    ensures LexLess(a, b) || LexLess(b, a)
    decreases |a|
  {
    if |a| > 0 && |b| > 0 && a[0] == b[0] {
      assert a == [a[0]] + a[1..] && b == [b[0]] + b[1..];
      LexConnected(a[1..], b[1..]);
    }
  }

  /** `parts.join(sep)`. */
  function Join(parts: seq<string>, sep: string): string
  {
    if parts == [] then ""
    else if |parts| == 1 then parts[0]
    else parts[0] + sep + Join(parts[1..], sep)
  }

  /** `toLowerCase` on the ASCII letters; every other character is kept. */
  function LowerChar(c: char): char {
    if 'A' <= c <= 'Z' then (c as int - 'A' as int + 'a' as int) as char else c
  }

  function ToLower(s: string): (r: string)
    ensures |r| == |s|
    ensures forall i :: 0 <= i < |s| ==> r[i] == LowerChar(s[i])
  {
    seq(|s|, i requires 0 <= i < |s| => LowerChar(s[i]))
  }
}
