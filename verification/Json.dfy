/** JSON string literals as Python's `json` module writes them in ASCII, and as it reads them (RFC 8259, section 7). */
module Json {
  import opened Wrappers

  function HexDigit(v: nat): char
    requires v < 16
  {
    if v < 10 then ('0' as int + v) as char else ('a' as int + v - 10) as char
  }

  function HexValue(c: char): (v: Option<nat>)
    ensures v.Some? ==> v.value < 16
  {
    if '0' <= c <= '9' then Some(c as int - '0' as int)
    else if 'a' <= c <= 'f' then Some(c as int - 'a' as int + 10)
    else if 'A' <= c <= 'F' then Some(c as int - 'A' as int + 10)
    else None
  }

  /** The escape of one UTF-16 code unit. */
  function UnitEscape(n: nat): (text: string)
    requires n < 0x10000
    ensures |text| == 6 && forall c | c in text :: c as int < 128
  {
    var n1 := n / 16;
    var n2 := n1 / 16;
    ['\\', 'u', HexDigit(n2 / 16), HexDigit(n2 % 16), HexDigit(n1 % 16), HexDigit(n % 16)]
  }

  /** Reads the escape of a code unit off the front. */
  function ReadUnit(text: string): (n: Option<nat>)
    ensures n.Some? ==> n.value < 0x10000 && |text| >= 6
  {
    if |text| < 6 || text[0] != '\\' || text[1] != 'u' then None
    else
      var d0, d1, d2, d3 := HexValue(text[2]), HexValue(text[3]), HexValue(text[4]), HexValue(text[5]);
      if d0.None? || d1.None? || d2.None? || d3.None? then None
      else Some(((d0.value * 16 + d1.value) * 16 + d2.value) * 16 + d3.value)
  }

  const BACKSPACE := 8 as char
  const FORM_FEED := 12 as char

  /** Printable ASCII that stands for itself. */
  predicate Plain(text: string) {
    forall c | c in text :: ' ' <= c <= '~' && c != '"' && c != '\\'
  }

  /** Everything but printable ASCII is escaped, beyond the basic plane as two surrogates. */
  function EscapeChar(c: char): (text: string)
    ensures text != "" && text[0] != '"' && forall x | x in text :: x as int < 128
  {
    if c == '"' then "\\\""
    else if c == '\\' then "\\\\"
    else if c == '\n' then "\\n"
    else if c == '\r' then "\\r"
    else if c == '\t' then "\\t"
    else if c == BACKSPACE then "\\b"
    else if c == FORM_FEED then "\\f"
    else if ' ' <= c <= '~' then [c]
    else if (c as int) < 0x10000 then UnitEscape(c as int)
    else
      var v := c as int - 0x10000;
      UnitEscape(0xD800 + v / 0x400) + UnitEscape(0xDC00 + v % 0x400)
  }

  function Escape(text: string): (escaped: string)
    ensures forall c | c in escaped :: c as int < 128
  {
    if text == "" then "" else EscapeChar(text[0]) + Escape(text[1..])
  }

  /** Reads one character of a literal and what is behind it; a surrogate counts only as half of a pair. */
  function ReadChar(text: string): (r: Option<(char, string)>)
    ensures r.Some? ==> |r.value.1| < |text|
  {
    if text == "" || text[0] < ' ' then None
    else if text[0] != '\\' then Some((text[0], text[1..]))
    else if |text| == 1 then None
    else
      match text[1]
      case '"' => Some(('"', text[2..]))
      case '\\' => Some(('\\', text[2..]))
      case '/' => Some(('/', text[2..]))
      case 'b' => Some((BACKSPACE, text[2..]))
      case 'f' => Some((FORM_FEED, text[2..]))
      case 'n' => Some(('\n', text[2..]))
      case 'r' => Some(('\r', text[2..]))
      case 't' => Some(('\t', text[2..]))
      case _ =>
        var n := ReadUnit(text);
        if n.None? then None
        else if n.value < 0xD800 || n.value >= 0xE000 then Some((n.value as char, text[6..]))
        else
          var low := ReadUnit(text[6..]);
          if n.value >= 0xDC00 || low.None? || low.value < 0xDC00 || low.value >= 0xE000 then None
          else Some(((0x10000 + (n.value - 0xD800) * 0x400 + (low.value - 0xDC00)) as char, text[12..]))
  }

  /** Reads a literal up to its closing quote, and what is behind that. */
  function ReadLiteral(text: string): (r: Option<(string, string)>)
    decreases |text|
  {
    if text == "" then None
    else if text[0] == '"' then Some(("", text[1..]))
    else
      var first := ReadChar(text);
      if first.None? then None
      else
        var rest := ReadLiteral(first.value.1);
        if rest.None? then None else Some(([first.value.0] + rest.value.0, rest.value.1))
  }

  lemma UnitRoundTrip(n: nat, tail: string)
    requires n < 0x10000
    ensures ReadUnit(UnitEscape(n) + tail) == Some(n)
  {
    hide HexDigit, HexValue;
    var d0, d1, d2, d3 := n / 16 / 16 / 16, n / 16 / 16 % 16, n / 16 % 16, n % 16;
    HexRoundTrip(d0);
    HexRoundTrip(d1);
    HexRoundTrip(d2);
    HexRoundTrip(d3);
    var text := UnitEscape(n) + tail;
    assert text[..6] == ['\\', 'u', HexDigit(d0), HexDigit(d1), HexDigit(d2), HexDigit(d3)];
    assert text[2] == text[..6][2] && text[3] == text[..6][3] && text[4] == text[..6][4] && text[5] == text[..6][5];
  }

  lemma HexRoundTrip(v: nat)
    requires v < 16
    ensures HexValue(HexDigit(v)) == Some(v)
  {
  }

  lemma CharRoundTrip(c: char, tail: string)
    ensures ReadChar(EscapeChar(c) + tail) == Some((c, tail))
  {
    hide UnitEscape, ReadUnit;
    var text := EscapeChar(c) + tail;
    if |EscapeChar(c)| == 2 {
      assert text[2..] == tail;
    } else if |EscapeChar(c)| == 1 {
      assert text[1..] == tail;
    } else if (c as int) < 0x10000 {
      UnitOpens(c as int, tail);
      UnitRoundTrip(c as int, tail);
    } else {
      var v := c as int - 0x10000;
      var low := UnitEscape(0xDC00 + v % 0x400);
      assert text == UnitEscape(0xD800 + v / 0x400) + (low + tail);
      UnitOpens(0xD800 + v / 0x400, low + tail);
      UnitRoundTrip(0xD800 + v / 0x400, low + tail);
      UnitRoundTrip(0xDC00 + v % 0x400, tail);
      assert text[12..] == tail;
    }
  }

  lemma UnitOpens(n: nat, tail: string)
    requires n < 0x10000
    ensures var text := UnitEscape(n) + tail; text[0] == '\\' && text[1] == 'u' && text[6..] == tail
  {
    hide HexDigit;
  }

  /** Any text, written as a literal, reads back as itself. */
  lemma {:induction false} LiteralRoundTrip(text: string, tail: string)
    ensures ReadLiteral(Escape(text) + ['"'] + tail) == Some((text, tail))
  {
    hide EscapeChar, ReadChar;
    if text == "" {
      assert "" + ['"'] + tail == ['"'] + tail;
    } else {
      var more := Escape(text[1..]) + ['"'] + tail;
      assert Escape(text) + ['"'] + tail == EscapeChar(text[0]) + more;
      CharRoundTrip(text[0], more);
      LiteralRoundTrip(text[1..], tail);
      assert text == [text[0]] + text[1..];
    }
  }

  lemma {:induction false} PlainIsItself(text: string)
    requires Plain(text)
    ensures Escape(text) == text
  {
    if text != "" {
      assert text[0] in text && forall c | c in text[1..] :: c in text;
      PlainChar(text[0]);
      hide EscapeChar;
      PlainIsItself(text[1..]);
      assert text == [text[0]] + text[1..];
    }
  }

  lemma PlainChar(c: char)
    requires ' ' <= c <= '~' && c != '"' && c != '\\'
    ensures EscapeChar(c) == [c]
  {
  }

  // ---------------------------------------------------------------- what a literal spells

  /** `c` is the hexadecimal digit of value `v`, in either case. */
  predicate IsHex(c: char, v: nat) {
    v < 16 && (c == "0123456789abcdef"[v] || c == "0123456789ABCDEF"[v])
  }

  /** The six characters that escape the code unit `n`. */
  ghost predicate SpellsUnit(text: string, n: nat) {
    && |text| == 6 && text[0] == '\\' && text[1] == 'u'
    && exists d0: nat, d1: nat, d2: nat, d3: nat ::
         && IsHex(text[2], d0) && IsHex(text[3], d1) && IsHex(text[4], d2) && IsHex(text[5], d3)
         && n == 0x1000 * d0 + 0x100 * d1 + 0x10 * d2 + d3
  }

  /** A backslash and this character. */
  predicate ShortEscape(x: char, c: char) {
    || (x == '"' && c == '"') || (x == '\\' && c == '\\') || (x == '/' && c == '/')
    || (x == 'b' && c == BACKSPACE) || (x == 'f' && c == FORM_FEED)
    || (x == 'n' && c == '\n') || (x == 'r' && c == '\r') || (x == 't' && c == '\t')
  }

  /** The two halves of a surrogate pair. */
  ghost predicate SpellsPair(text: string, c: char) {
    && |text| == 12 && c as int >= 0x10000
    && SpellsUnit(text[..6], 0xD800 + (c as int - 0x10000) / 0x400)
    && SpellsUnit(text[6..], 0xDC00 + (c as int - 0x10000) % 0x400)
  }

  /** Every way to write one character inside a literal. */
  ghost predicate SpellsChar(text: string, c: char) {
    || (text == [c] && c >= ' ' && c != '"' && c != '\\')
    || (|text| == 2 && text[0] == '\\' && ShortEscape(text[1], c))
    || ((c as int) < 0x10000 && SpellsUnit(text, c as int))
    || SpellsPair(text, c)
  }

  /** What stands between the quotes is `text`, one character after the other. */
  ghost predicate Spells(literal: string, text: string)
    decreases |text|
  {
    if text == "" then literal == ""
    else exists n | 0 < n <= |literal| :: SpellsChar(literal[..n], text[0]) && Spells(literal[n..], text[1..])
  }

  lemma HexMeans(c: char, v: nat)
    ensures HexValue(c) == Some(v) <==> IsHex(c, v)
  {
    if IsHex(c, v) {
      HexDigits(v);
    }
    if HexValue(c) == Some(v) {
      HexDigits(v);
    }
  }

  lemma HexDigits(v: nat)
    requires v < 16
    ensures "0123456789abcdef"[v] == (if v < 10 then ('0' as int + v) as char else ('a' as int + v - 10) as char)
    ensures "0123456789ABCDEF"[v] == (if v < 10 then ('0' as int + v) as char else ('A' as int + v - 10) as char)
  {
  }

  lemma UnitMeans(text: string, n: nat)
    ensures ReadUnit(text) == Some(n) <==> |text| >= 6 && SpellsUnit(text[..6], n)
  {
    hide HexValue, IsHex;
    if |text| >= 6 {
      var d0, d1, d2, d3 := HexValue(text[2]), HexValue(text[3]), HexValue(text[4]), HexValue(text[5]);
      if ReadUnit(text) == Some(n) {
        HexMeans(text[2], d0.value);
        HexMeans(text[3], d1.value);
        HexMeans(text[4], d2.value);
        HexMeans(text[5], d3.value);
        assert IsHex(text[..6][2], d0.value) && IsHex(text[..6][3], d1.value);
        assert IsHex(text[..6][4], d2.value) && IsHex(text[..6][5], d3.value);
      }
      if SpellsUnit(text[..6], n) {
        var e0: nat, e1: nat, e2: nat, e3: nat :|
          && IsHex(text[..6][2], e0) && IsHex(text[..6][3], e1) && IsHex(text[..6][4], e2) && IsHex(text[..6][5], e3)
          && n == 0x1000 * e0 + 0x100 * e1 + 0x10 * e2 + e3;
        HexMeans(text[2], e0);
        HexMeans(text[3], e1);
        HexMeans(text[4], e2);
        HexMeans(text[5], e3);
      }
    }
  }

  /** What is read as one character spells it. */
  lemma CharIsSpelled(text: string)
    requires ReadChar(text).Some? && text[0] != '"'
    ensures var (c, rest) := ReadChar(text).value;
            var n := |text| - |rest|;
            0 < n <= |text| && text[n..] == rest && SpellsChar(text[..n], c)
  {
    hide ReadUnit, SpellsUnit;
    var (c, rest) := ReadChar(text).value;
    var n := |text| - |rest|;
    if n == 6 {
      UnitMeans(text, c as int);
    } else if n == 12 {
      var v := c as int - 0x10000;
      UnitMeans(text, 0xD800 + v / 0x400);
      UnitMeans(text[6..], 0xDC00 + v % 0x400);
      assert text[..12][..6] == text[..6] && text[..12][6..] == text[6..][..6];
    }
  }

  /** What spells a character is read as it. */
  lemma SpelledIsRead(literal: string, c: char, rest: string)
    requires SpellsChar(literal, c)
    ensures literal != "" && literal[0] != '"' && ReadChar(literal + rest) == Some((c, rest))
  {
    hide ReadUnit, SpellsUnit;
    var text := literal + rest;
    assert text[|literal|..] == rest;
    if (c as int) < 0x10000 && SpellsUnit(literal, c as int) {
      UnitStarts(literal, c as int);
      assert text[..6] == literal;
      UnitMeans(text, c as int);
    } else if SpellsPair(literal, c) {
      var v := c as int - 0x10000;
      assert text[..6] == literal[..6] && text[6..][..6] == literal[6..];
      UnitMeans(text, 0xD800 + v / 0x400);
      UnitMeans(text[6..], 0xDC00 + v % 0x400);
      UnitStarts(literal[..6], 0xD800 + v / 0x400);
    }
  }

  lemma UnitStarts(text: string, n: nat)
    requires SpellsUnit(text, n)
    ensures |text| == 6 && text[0] == '\\' && text[1] == 'u'
  {
  }

  /** Reading a literal succeeds exactly on what spells a text and is closed by a quote, and gives that text. */
  lemma {:induction false} LiteralReadsIff(text: string, value: string, rest: string)
    ensures ReadLiteral(text) == Some((value, rest)) <==>
            exists literal :: Spells(literal, value) && text == literal + ['"'] + rest
  {
    hide SpellsChar, ReadChar;
    if ReadLiteral(text) == Some((value, rest)) {
      var literal := LiteralOf(text);
    }
    if exists literal :: Spells(literal, value) && text == literal + ['"'] + rest {
      var literal :| Spells(literal, value) && text == literal + ['"'] + rest;
      SpelledLiteralIsRead(literal, value, rest);
    }
  }

  lemma SpellsMore(first: string, c: char, tail: string, value: string)
    requires first != "" && SpellsChar(first, c) && Spells(tail, value)
    ensures Spells(first + tail, [c] + value)
  {
    hide SpellsChar;
    var literal, n := first + tail, |first|;
    assert literal[..n] == first && literal[n..] == tail && ([c] + value)[1..] == value;
  }

  lemma {:induction false} LiteralOf(text: string) returns (literal: string)
    requires ReadLiteral(text).Some?
    ensures var (value, rest) := ReadLiteral(text).value; Spells(literal, value) && text == literal + ['"'] + rest
    decreases |text|
  {
    hide SpellsChar, ReadChar;
    if text[0] == '"' {
      literal := "";
      assert text == [text[0]] + text[1..];
    } else {
      CharIsSpelled(text);
      var (c, more) := ReadChar(text).value;
      var n := |text| - |more|;
      var tail := LiteralOf(more);
      SpellsMore(text[..n], c, tail, ReadLiteral(more).value.0);
      literal := text[..n] + tail;
      assert text == text[..n] + more;
      assert text[..n] + (tail + ['"'] + ReadLiteral(more).value.1) == literal + ['"'] + ReadLiteral(more).value.1;
    }
  }

  lemma {:induction false} SpelledLiteralIsRead(literal: string, value: string, rest: string)
    requires Spells(literal, value)
    ensures ReadLiteral(literal + ['"'] + rest) == Some((value, rest))
    decreases |value|
  {
    hide SpellsChar, ReadChar;
    var text := literal + ['"'] + rest;
    if value == "" {
      assert text == ['"'] + rest;
    } else {
      var n :| 0 < n <= |literal| && SpellsChar(literal[..n], value[0]) && Spells(literal[n..], value[1..]);
      var more := literal[n..] + ['"'] + rest;
      assert text == literal[..n] + more;
      SpelledIsRead(literal[..n], value[0], more);
      SpelledLiteralIsRead(literal[n..], value[1..], rest);
      assert value == [value[0]] + value[1..];
    }
  }

  /** How many characters the writer uses for one. */
  function WrittenLength(c: char): nat {
    if ' ' <= c <= '~' && c != '"' && c != '\\' then 1
    else if c in {'"', '\\', '\n', '\r', '\t', BACKSPACE, FORM_FEED} then 2
    else if (c as int) < 0x10000 then 6
    else 12
  }

  lemma EscapedLength(c: char)
    ensures |EscapeChar(c)| == WrittenLength(c)
  {
  }

  /** The writer spells the text, with the shortest escapes and only ASCII. */
  lemma {:induction false} EscapeSpells(text: string)
    ensures Spells(Escape(text), text)
    ensures text != "" ==> |Escape(text)| == WrittenLength(text[0]) + |Escape(text[1..])|
  {
    assert text != "" ==> Escape(text) == EscapeChar(text[0]) + Escape(text[1..]);
    LiteralRoundTrip(text, "");
    if text != "" {
      EscapedLength(text[0]);
    }
    hide Escape, EscapeChar, Spells, ReadLiteral;
    LiteralReadsIff(Escape(text) + ['"'] + "", text, "");
    var literal :| Spells(literal, text) && Escape(text) + ['"'] + "" == literal + ['"'] + "";
    assert (Escape(text) + ['"'] + "")[..|Escape(text)|] == Escape(text);
    assert (literal + ['"'] + "")[..|literal|] == literal;
  }
}
