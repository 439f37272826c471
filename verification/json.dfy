/** The part of `JSON.stringify` the blog uses: string literals with their
    escapes, and a reader for them that undoes the escaping. */
module Json {
  import opened Wrappers

  /** The lower-case hexadecimal digit of `d`. */
  function HexDigit(d: nat): (c: char)
    requires d < 16
  {
    "0123456789abcdef"[d]
  }

  /** The value of a hexadecimal digit of either case, if it is one. */
  function HexValue(c: char): (r: Option<int>)
    ensures r.Some? ==> 0 <= r.value < 16
    ensures r.Some? <==> ('0' <= c <= '9') || ('a' <= c <= 'f') || ('A' <= c <= 'F')
  {
    if '0' <= c <= '9' then Some(c as int - '0' as int)
    else if 'a' <= c <= 'f' then Some(c as int - 'a' as int + 10)
    else if 'A' <= c <= 'F' then Some(c as int - 'A' as int + 10)
    else None
  }

  lemma HexRoundTrip(d: nat)
    requires d < 16
    ensures HexValue(HexDigit(d)) == Some(d)
  {
  }

  /** How `JSON.stringify` writes one character inside a string literal:
      the quote and the backslash are escaped, the five control characters
      with a short escape use it, the other control characters become
      `\u00XX`, and everything else is written as it is. */
  function EscapeChar(c: char): (r: string)
    ensures |r| >= 1
    ensures r[0] == '\\' || (r == [c] && c != '"' && c >= ' ')
    ensures forall i :: 0 <= i < |r| ==> r[i] != '"' || (i == 1 && r[0] == '\\')
  {
    if c == '"' then "\\\""
    else if c == '\\' then "\\\\"
    else if c == '\U{0008}' then "\\b"
    else if c == '\U{000C}' then "\\f"
    else if c == '\n' then "\\n"
    else if c == '\r' then "\\r"
    else if c == '\t' then "\\t"
    else if c < ' ' then "\\u00" + [HexDigit(c as int / 16), HexDigit(c as int % 16)]
    else [c]
  }

  /** The escaped text of a string, without the enclosing quotes. */
  function Escape(s: string): (r: string)
    ensures |r| >= |s|
    ensures forall i :: 0 <= i < |r| ==> r[i] != '"' || (i > 0 && r[i - 1] == '\\')
  {
    if s == [] then []
    else
      var head, tail := EscapeChar(s[0]), Escape(s[1..]);
      var r := head + tail;
      assert forall i :: |head| <= i < |r| ==> r[i] == tail[i - |head|];
      r
  }

  /** `JSON.stringify` of a string. */
  function Quote(s: string): (r: string)
    ensures |r| == |Escape(s)| + 2 && r[0] == '"' && r[|r| - 1] == '"'
  {
    "\"" + Escape(s) + "\""
  }

  /** Reads a string literal whose opening quote is already consumed:
      its text, every escape JSON allows undone, and what follows the
      closing quote; none if the literal is malformed or never closed. */
  function ReadString(t: string): (r: Option<(string, string)>)
    ensures r.Some? ==> |r.value.1| < |t|
    decreases |t|
  {
    if t == [] || t[0] < ' ' then None
    else if t[0] == '"' then Some(([], t[1..]))
    else if t[0] != '\\' then Prepend(t[0], ReadString(t[1..]))
    else if |t| < 2 then None
    else if t[1] == 'u' then
      if |t| < 6 then None
      else
        match (HexValue(t[2]), HexValue(t[3]), HexValue(t[4]), HexValue(t[5]))
        case (Some(a), Some(b), Some(c), Some(d)) =>
          var code := ((a * 16 + b) * 16 + c) * 16 + d;
          assert 0 <= code < 0x10000;
          if 0xD800 <= code < 0xE000 then None
          else Prepend(code as char, ReadString(t[6..]))
        case _ => None
    else
      match ShortEscape(t[1])
      case Some(c) => Prepend(c as char, ReadString(t[2..]))
      case None => None
  }

  function Prepend(c: char, r: Option<(string, string)>): (r': Option<(string, string)>)
    ensures r'.Some? <==> r.Some?
    ensures r.Some? ==> r'.value == ([c] + r.value.0, r.value.1)
  {
    if r.Some? then Some(([c] + r.value.0, r.value.1)) else None
  }

  /** The character a two-character escape `\x` stands for. */
  function ShortEscape(x: char): (r: Option<int>)
    ensures r.Some? ==> 0 <= r.value < 0x80
  {
    if x == '"' then Some('"' as int)
    else if x == '\\' then Some('\\' as int)
    else if x == '/' then Some('/' as int)
    else if x == 'b' then Some(8)
    else if x == 'f' then Some(12)
    else if x == 'n' then Some('\n' as int)
    else if x == 'r' then Some('\r' as int)
    else if x == 't' then Some('\t' as int)
    else None
  }

  /** Reading back one escaped character. */
  lemma ReadChar(c: char, rest: string)
    ensures ReadString(EscapeChar(c) + rest) == Prepend(c, ReadString(rest))
  {
    if c < ' ' && c != '\U{0008}' && c != '\U{000C}' && c != '\n' && c != '\r' && c != '\t' {
      ReadUnicode(c, rest);
    } else if |EscapeChar(c)| == 2 {
      assert (EscapeChar(c) + rest)[2..] == rest;
    } else {
      assert (EscapeChar(c) + rest)[1..] == rest;
    }
  }

  /** Reading back a control character written as `\u00XX`. */
  lemma ReadUnicode(c: char, rest: string)
    requires c < ' ' && c != '\U{0008}' && c != '\U{000C}' && c != '\n' && c != '\r' && c != '\t'
    ensures ReadString(EscapeChar(c) + rest) == Prepend(c, ReadString(rest))
  {
    var hi, lo := c as int / 16, c as int % 16;
    var e := "\\u00" + [HexDigit(hi), HexDigit(lo)];
    assert EscapeChar(c) == e;
    HexRoundTrip(hi);
    HexRoundTrip(lo);
    var t := e + rest;
    assert t[1] == 'u' && t[2] == '0' && t[3] == '0' && t[4] == HexDigit(hi) && t[5] == HexDigit(lo);
    assert t[6..] == rest;
    assert ((0 * 16 + 0) * 16 + hi) * 16 + lo == c as int;
  }

  /** What `JSON.stringify` writes, a JSON reader reads back unchanged,
      stopping right after the closing quote. */
  lemma {:induction false} ReadEscaped(s: string, rest: string)
    ensures ReadString(Escape(s) + "\"" + rest) == Some((s, rest))
    decreases |s|
  {
    if s == [] {
      assert Escape(s) + "\"" + rest == "\"" + rest;
    } else {
      var tail := Escape(s[1..]) + "\"" + rest;
      assert Escape(s) + "\"" + rest == EscapeChar(s[0]) + tail;
      ReadChar(s[0], tail);
      ReadEscaped(s[1..], rest);
      assert [s[0]] + s[1..] == s;
    }
  }

  /** A string literal, opening quote included, and what follows it. */
  function ReadLiteral(t: string): (r: Option<(string, string)>)
    ensures r.Some? ==> |r.value.1| < |t|
  {
    if t != [] && t[0] == '"' then ReadString(t[1..]) else None
  }

  /** A whole string literal reads back as its string. */
  lemma ReadQuoted(s: string, rest: string)
    ensures ReadLiteral(Quote(s) + rest) == Some((s, rest))
  {
    assert Quote(s) + rest == "\"" + (Escape(s) + "\"" + rest);
    assert (Quote(s) + rest)[1..] == Escape(s) + "\"" + rest;
    ReadEscaped(s, rest);
  }
}
