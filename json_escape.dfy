/**
 * json_escape, the string escaper that job_manager.cpp and http_server.cpp
 * each define with the same body: it escapes '"', '\' and the control
 * characters below 0x20 as JSON string escapes (section 7 of RFC 8259) and
 * copies every other byte.
 *
 * `Escaped` is the specification, `JsonEscape` the appending loop, and
 * `ReadString` a reader of RFC 8259 string bodies (lowercase `\u` digits,
 * no surrogates) that inverts it: reading an escaped string back gives the
 * string.
 */
module JsonEscape {
  import opened Wrappers
  import opened Text

  const Backspace: char := '\U{8}'
  const FormFeed: char := '\U{C}'

  predicate IsControl(c: char) {
    (c as int) < 0x20
  }

  /** What one input byte becomes. */
  function EscapeChar(c: char): string {
    if c == '"' then "\\\""
    else if c == '\\' then "\\\\"
    else if c == Backspace then "\\b"
    else if c == FormFeed then "\\f"
    else if c == '\n' then "\\n"
    else if c == '\r' then "\\r"
    else if c == '\t' then "\\t"
    else if IsControl(c) then "\\u00" + [HexDigit(c as int / 16), HexDigit(c as int % 16)]
    else [c]
  }

  /** The escape of a whole string: the per-byte escapes, in order. */
  function Escaped(s: string): string {
    if s == [] then [] else EscapeChar(s[0]) + Escaped(s[1..])
  }

  /** Escaping distributes over concatenation. */
  lemma {:induction false} EscapedConcat(a: string, b: string)
    ensures Escaped(a + b) == Escaped(a) + Escaped(b)
    decreases |a|
  {
    if a == [] {
      assert a + b == b;
    } else {
      assert (a + b)[1..] == a[1..] + b;
      EscapedConcat(a[1..], b);
    }
  }

  /** A character json_escape copies unchanged. */
  predicate IsPlain(c: char) {
    c != '"' && c != '\\' && !IsControl(c)
  }

  /** A string of plain characters is its own escape. */
  lemma {:induction false} EscapedPlain(s: string)
    requires forall i :: 0 <= i < |s| ==> IsPlain(s[i])
    ensures Escaped(s) == s
    decreases |s|
  {
    if s != [] {
      EscapedPlain(s[1..]);
      assert [s[0]] + s[1..] == s;
    }
  }

  /** The output never holds a raw control character. */
  lemma {:induction false} EscapedHasNoControl(s: string)
    ensures forall i :: 0 <= i < |Escaped(s)| ==> !IsControl(Escaped(s)[i])
    decreases |s|
  {
    if s != [] {
      EscapedHasNoControl(s[1..]);
      var e := EscapeChar(s[0]);
      assert forall i :: 0 <= i < |e| ==> !IsControl(e[i]);
    }
  }

  /** The loop of json_escape, appending to `o` one byte at a time. */
  method JsonEscape(s: string) returns (o: string)
    ensures o == Escaped(s)
  {
    o := [];
    var i := 0;
    while i < |s|
      invariant 0 <= i <= |s|
      invariant o == Escaped(s[..i])
    {
      var c := s[i];
      var e: string;
      if c == '"' {
        e := "\\\"";
      } else if c == '\\' {
        e := "\\\\";
      } else if c == Backspace {
        e := "\\b";
      } else if c == FormFeed {
        e := "\\f";
      } else if c == '\n' {
        e := "\\n";
      } else if c == '\r' {
        e := "\\r";
      } else if c == '\t' {
        e := "\\t";
      } else if IsControl(c) {
        e := "\\u00" + [HexDigit(c as int / 16), HexDigit(c as int % 16)];
      } else {
        e := [c];
      }
      assert e == EscapeChar(c);
      assert s[..i + 1] == s[..i] + [c];
      EscapedConcat(s[..i], [c]);
      assert Escaped([c]) == e by {
        assert [c][1..] == [];
      }
      o := o + e;
      i := i + 1;
    }
    assert s[..i] == s;
  }

  // ---------------------------------------------------------- decoding

  /** The character a two-character escape `\e` stands for. */
  function SimpleEscape(e: char): Option<char> {
    if e == '"' then Some('"')
    else if e == '\\' then Some('\\')
    else if e == '/' then Some('/')
    else if e == 'b' then Some(Backspace)
    else if e == 'f' then Some(FormFeed)
    else if e == 'n' then Some('\n')
    else if e == 'r' then Some('\r')
    else if e == 't' then Some('\t')
    else None
  }

  function Cons(c: char, r: Option<(string, string)>): Option<(string, string)> {
    if r.Some? then Some(([c] + r.value.0, r.value.1)) else None
  }

  /**
   * Reads the body of a JSON string (section 7 of RFC 8259, without
   * surrogate pairs) up to its closing quote: the decoded text and what
   * follows the quote, or None when `t` holds a raw control character, a
   * malformed escape, a `\u` escape with uppercase hex digits, or no
   * closing quote.
   */
  function ReadString(t: string): Option<(string, string)>
    decreases |t|
  {
    if t == [] then None
    else if t[0] == '"' then Some(([], t[1..]))
    else if t[0] == '\\' then
      if |t| < 2 then None
      else if t[1] == 'u' then
        if |t| < 6 || !IsHexText(t[2..6]) then None
        else
          var v := HexValue(t[2..6]);
          if 0xD800 <= v < 0xE000 || v >= 0x11_0000 then None
          else Cons(v as char, ReadString(t[6..]))
      else if SimpleEscape(t[1]).None? then None
      else Cons(SimpleEscape(t[1]).value, ReadString(t[2..]))
    else if IsControl(t[0]) then None
    else Cons(t[0], ReadString(t[1..]))
  }

  lemma ReadEscapeChar(c: char, rest: string)
    ensures ReadString(EscapeChar(c) + rest) == Cons(c, ReadString(rest))
  {
    var t := EscapeChar(c) + rest;
    if IsControl(c) && c != Backspace && c != FormFeed && c != '\n' && c != '\r' && c != '\t' {
      var hi, lo := c as int / 16, c as int % 16;
      assert t[2..6] == ['0', '0', HexDigit(hi), HexDigit(lo)];
      assert t[6..] == rest;
      var h := t[2..6];
      var h1, h2, h3 := h[..1], h[..2], h[..3];
      assert h1[..0] == [] && h2[..1] == h1 && h3[..2] == h2 && h[..3] == h3;
      DigitValueOfHexDigit(hi);
      DigitValueOfHexDigit(lo);
      assert HexValue(h1) == 0;
      assert HexValue(h2) == 0;
      assert HexValue(h3) == hi;
      assert HexValue(h) == 16 * hi + lo;
    } else if c == '"' || c == '\\' || c == Backspace || c == FormFeed || c == '\n' || c == '\r' || c == '\t' {
      assert t[2..] == rest;
    } else {
      assert t[1..] == rest;
    }
  }

  /**
   * Reading back an escaped string followed by its closing quote gives the
   * string and leaves what follows the quote.
   */
  lemma {:induction false} ReadEscaped(s: string, rest: string)
    ensures ReadString(Escaped(s) + "\"" + rest) == Some((s, rest))
    decreases |s|
  {
    if s == [] {
      assert Escaped(s) + "\"" + rest == "\"" + rest;
      assert ("\"" + rest)[1..] == rest;
    } else {
      ReadEscaped(s[1..], rest);
      assert Escaped(s) + "\"" + rest == EscapeChar(s[0]) + (Escaped(s[1..]) + "\"" + rest);
      ReadEscapeChar(s[0], Escaped(s[1..]) + "\"" + rest);
      assert [s[0]] + s[1..] == s;
    }
  }

  /** Hence escaping is injective: distinct strings never collide. */
  lemma EscapedInjective(a: string, b: string)
    requires Escaped(a) == Escaped(b)
    ensures a == b
  {
    ReadEscaped(a, "");
    ReadEscaped(b, "");
  }
}
