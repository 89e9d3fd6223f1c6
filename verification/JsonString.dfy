/** The text of a JSON string as the encoder writes it, and as section 7 of RFC 8259 reads it. */
module JsonStrings {
  import opened ByteText
  import opened ErrorRender
  import opened ErrorWire

  // ---- Writing ----

  function Hex(d: int): char
    requires 0 <= d < 16
  {
    if d < 10 then ('0' as int + d) as char else ('a' as int + (d - 10)) as char
  }

  function EscapeByte(c: char): Bytes
    requires c as int < 0x80
  {
    if c == '"' || c == '\\' then ['\\', c]
    else if c == '\n' then "\\n"
    else if c == '\r' then "\\r"
    else if c == '\t' then "\\t"
    else if c as int == 8 then "\\b"
    else if c as int == 12 then "\\f"
    else if c as int < 0x20 || c in "<>&" then ['\\', 'u', '0', '0', Hex(c as int / 16), Hex(c as int % 16)]
    else [c]
  }

  /** What stands between the quotes: controls, quotes and the characters of HTML and JavaScript are escaped. */
  function Escape(s: Bytes): Bytes
    decreases |s|
  {
    if s == "" then ""
    else
      var n := RuneLength(s);
      if n == 0 then "\\ufffd" + Escape(s[1..])
      else if n == 1 then EscapeByte(s[0]) + Escape(s[1..])
      else if IsLineSeparator(s) then (if s[2] as int == 0xA8 then "\\u2028" else "\\u2029") + Escape(s[n..])
      else s[..n] + Escape(s[n..])
  }

  lemma {:induction false} EscapedLengthIsTextLength(s: Bytes)
    ensures |Escape(s)| == EscapedLength(s)
    decreases |s|
  {
    if s != "" {
      hide EscapeByte, EscapedByte;
      var n := RuneLength(s);
      EscapedLengthIsTextLength(s[if n == 0 then 1 else n..]);
      if n == 1 { EscapeByteLength(s[0]); }
    }
  }

  lemma EscapeByteLength(c: char)
    requires c as int < 0x80
    ensures |EscapeByte(c)| == EscapedByte(c)
  {
  }

  // ---- Reading ----

  function HexValue(c: char): Option<int> {
    if '0' <= c <= '9' then Some(c as int - '0' as int)
    else if 'a' <= c <= 'f' then Some(c as int - 'a' as int + 10)
    else if 'A' <= c <= 'F' then Some(c as int - 'A' as int + 10)
    else None
  }

  /** The number four hexadecimal digits denote. */
  function CodeUnit(s: Bytes): Option<int>
    requires |s| == 4
  {
    var a, b, c, d := HexValue(s[0]), HexValue(s[1]), HexValue(s[2]), HexValue(s[3]);
    if a.None? || b.None? || c.None? || d.None? then None
    else Some(((a.value * 16 + b.value) * 16 + c.value) * 16 + d.value)
  }

  /** The UTF-8 bytes of a code point of the basic plane (section 3 of RFC 3629). */
  function Utf8(code: int): Bytes
    requires 0 <= code < 0x10000
  {
    if code < 0x80 then [code as char]
    else if code < 0x800 then [(0xC0 + code / 64) as char, (0x80 + code % 64) as char]
    else [(0xE0 + code / 4096) as char, (0x80 + code / 64 % 64) as char, (0x80 + code % 64) as char]
  }

  function ShortEscape(c: char): Option<char> {
    if c in "\"\\/" then Some(c)
    else if c == 'b' then Some(8 as char)
    else if c == 'f' then Some(12 as char)
    else if c == 'n' then Some('\n')
    else if c == 'r' then Some('\r')
    else if c == 't' then Some('\t')
    else None
  }

  function Joined(head: Bytes, tail: Option<Bytes>): Option<Bytes> {
    if tail.None? then None else Some(head + tail.value)
  }

  /** What a JSON string's text denotes; none for ill-formed text and for surrogates, which are never written. */
  function Unescape(s: Bytes): Option<Bytes>
    decreases |s|
  {
    if s == "" then Some("")
    else if s[0] as int < 0x20 || s[0] == '"' then None
    else if s[0] != '\\' then Joined([s[0]], Unescape(s[1..]))
    else if |s| < 2 then None
    else if s[1] == 'u' then
      if |s| < 6 || CodeUnit(s[2..6]).None? then None
      else
        var code := CodeUnit(s[2..6]).value;
        if 0 <= code < 0xD800 || 0xE000 <= code < 0x10000 then Joined(Utf8(code), Unescape(s[6..])) else None
    else if ShortEscape(s[1]).None? then None
    else Joined([ShortEscape(s[1]).value], Unescape(s[2..]))
  }

  // ---- Reading undoes writing, but for ill-formed UTF-8 ----

  lemma UnescapeUnit(a: char, b: char, c: char, d: char, code: int, rest: Bytes)
    requires CodeUnit([a, b, c, d]) == Some(code) && (0 <= code < 0xD800 || 0xE000 <= code < 0x10000)
    ensures Unescape(['\\', 'u', a, b, c, d] + rest) == Joined(Utf8(code), Unescape(rest))
  {
    hide CodeUnit, Utf8;
    var s := ['\\', 'u', a, b, c, d] + rest;
    assert s[2..6] == [a, b, c, d] && s[6..] == rest;
  }

  lemma UnescapeShort(c: char, rest: Bytes)
    requires c != 'u' && ShortEscape(c).Some?
    ensures Unescape(['\\', c] + rest) == Joined([ShortEscape(c).value], Unescape(rest))
  {
    hide ShortEscape;
    var s := ['\\', c] + rest;
    assert s[2..] == rest;
  }

  predicate Literally(c: char) { c as int >= 0x20 && c != '"' && c != '\\' }

  lemma UnescapeOne(c: char, rest: Bytes)
    requires Literally(c)
    ensures Unescape([c] + rest) == Joined([c], Unescape(rest))
  {
    hide CodeUnit, ShortEscape, Utf8;
    assert ([c] + rest)[1..] == rest;
  }

  lemma JoinedTwice(a: Bytes, b: Bytes, tail: Option<Bytes>)
    ensures Joined("", tail) == tail && Joined(a, Joined(b, tail)) == Joined(a + b, tail)
  {
    if tail.Some? { assert "" + tail.value == tail.value && a + (b + tail.value) == a + b + tail.value; }
  }

  lemma {:induction false} UnescapeLiterally(p: Bytes, rest: Bytes)
    requires forall i :: 0 <= i < |p| ==> Literally(p[i])
    ensures Unescape(p + rest) == Joined(p, Unescape(rest))
    decreases |p|
  {
    hide Unescape, Joined, Literally;
    if p == "" {
      assert p + rest == rest;
      JoinedTwice("", "", Unescape(rest));
    } else {
      UnescapeLiterally(p[1..], rest);
      UnescapeOne(p[0], p[1..] + rest);
      JoinedTwice([p[0]], p[1..], Unescape(rest));
      assert p + rest == [p[0]] + (p[1..] + rest) && p == [p[0]] + p[1..];
    }
  }

  lemma HexBack(d: int)
    requires 0 <= d < 16
    ensures HexValue(Hex(d)) == Some(d)
  {
  }

  lemma {:induction false} UnescapeByte(c: char, rest: Bytes)
    requires c as int < 0x80
    ensures Unescape(EscapeByte(c) + rest) == Joined([c], Unescape(rest))
  {
    hide Unescape, Hex, HexValue;
    var e := EscapeByte(c);
    if |e| == 1 {
      UnescapeLiterally([c], rest);
    } else if |e| == 2 {
      assert e == ['\\', e[1]];
      UnescapeShort(e[1], rest);
    } else {
      var hi, lo := c as int / 16, c as int % 16;
      HexBack(0);
      HexBack(hi);
      HexBack(lo);
      assert Hex(0) == '0' by { HexZero(); }
      UnescapeUnit('0', '0', Hex(hi), Hex(lo), c as int, rest);
    }
  }

  lemma HexZero()
    ensures Hex(0) == '0'
  {
  }

  lemma NamedUnits()
    ensures CodeUnit("fffd") == Some(0xFFFD) && CodeUnit("2028") == Some(0x2028) && CodeUnit("2029") == Some(0x2029)
    ensures Utf8(0xFFFD) == REPLACEMENT
    ensures Utf8(0x2028) == [0xE2 as char, 0x80 as char, 0xA8 as char]
    ensures Utf8(0x2029) == [0xE2 as char, 0x80 as char, 0xA9 as char]
  {
  }

  lemma {:induction false} UnescapeNamed(rest: Bytes)
    ensures Unescape("\\ufffd" + rest) == Joined(REPLACEMENT, Unescape(rest))
    ensures Unescape("\\u2028" + rest) == Joined([0xE2 as char, 0x80 as char, 0xA8 as char], Unescape(rest))
    ensures Unescape("\\u2029" + rest) == Joined([0xE2 as char, 0x80 as char, 0xA9 as char], Unescape(rest))
  {
    hide Unescape, CodeUnit, Utf8, REPLACEMENT;
    NamedUnits();
    UnescapeUnit('f', 'f', 'f', 'd', 0xFFFD, rest);
    UnescapeUnit('2', '0', '2', '8', 0x2028, rest);
    UnescapeUnit('2', '0', '2', '9', 0x2029, rest);
  }

  lemma LongRune(s: Bytes)
    requires RuneLength(s) > 1
    ensures forall i :: 0 <= i < RuneLength(s) ==> Literally(s[i])
    ensures IsLineSeparator(s) ==>
              var last := if s[2] as int == 0xA8 then 0xA8 as char else 0xA9 as char;
              RuneLength(s) == 3 && s[..3] == [0xE2 as char, 0x80 as char, last]
  {
  }

  /**
   Whatever is written is read back with each byte that starts no well-formed sequence replaced by U+FFFD; and
   the length counted against the bound is the length of that text.
   */
  lemma {:induction false} UnescapeOfEscape(s: Bytes)
    ensures Unescape(Escape(s)) == Some(ToValidUtf8(s)) && |Escape(s)| == EscapedLength(s)
    decreases |s|
  {
    EscapedLengthIsTextLength(s);
    if s != "" {
      hide Unescape, EscapeByte, RuneLength, REPLACEMENT, EscapedLength, IsLineSeparator;
      var n := RuneLength(s);
      var rest := s[if n == 0 then 1 else n..];
      UnescapeOfEscape(rest);
      if n == 0 {
        UnescapeNamed(Escape(rest));
      } else if n == 1 {
        ShortRune(s);
        UnescapeByte(s[0], Escape(rest));
        assert s[..1] == [s[0]];
      } else {
        LongRune(s);
        if IsLineSeparator(s) { UnescapeNamed(Escape(rest)); } else { UnescapeLiterally(s[..n], Escape(rest)); }
      }
    }
  }

  lemma ShortRune(s: Bytes)
    ensures RuneLength(s) == 1 ==> s[0] as int < 0x80
  {
  }
}
