/**
 The hand-written JSON escaper and string extractor of src/confirmation_gate.cpp.  A
 `char` stands for one byte of a std::string.
 */
module Json {
  const BACKSPACE: char := 8 as char
  const FORM_FEED: char := 12 as char

  function HexDigit(d: nat): char
    requires d < 16
  {
    if d < 10 then '0' + d as char else 'a' + (d - 10) as char
  }

  /** One byte as json_escape prints it. */
  function EscapedChar(c: char): string {
    if c == '"' then "\\\""
    else if c == '\\' then "\\\\"
    else if c == BACKSPACE then "\\b"
    else if c == FORM_FEED then "\\f"
    else if c == '\n' then "\\n"
    else if c == '\r' then "\\r"
    else if c == '\t' then "\\t"
    else if c as int < 0x20 then "\\u00" + [HexDigit(c as int / 16), HexDigit(c as int % 16)]
    else [c]
  }

  /** json_escape. */
  function Escaped(s: string): string {
    if s == "" then "" else Escaped(s[..|s| - 1]) + EscapedChar(s[|s| - 1])
  }

  method JsonEscape(s: string) returns (out: string)
    ensures out == Escaped(s)
  {
    out := "";
    for i := 0 to |s|
      invariant out == Escaped(s[..i])
    {
      out := out + EscapedChar(s[i]);
      assert s[..i + 1][..i] == s[..i];
    }
    assert s[..|s|] == s;
  }

  // ---------------------------------------------------------------------
  // std::stoul(text, nullptr, 16) on the four characters after \u

  function HexValue(c: char): int {
    if '0' <= c <= '9' then c as int - '0' as int
    else if 'a' <= c <= 'f' then c as int - 'a' as int + 10
    else if 'A' <= c <= 'F' then c as int - 'A' as int + 10
    else -1
  }

  /** The value of the leading hexadecimal digits. */
  function HexPrefix(text: string, acc: nat): nat
    decreases text
  {
    if text == "" || HexValue(text[0]) < 0 then acc else HexPrefix(text[1..], 16 * acc + HexValue(text[0]))
  }

  predicate IsSpace(c: char) { c == ' ' || 9 <= c as int <= 13 }

  function SkipSpaces(text: string): string {
    if text != "" && IsSpace(text[0]) then SkipSpaces(text[1..]) else text
  }

  predicate StartsHex(text: string) { text != "" && HexValue(text[0]) >= 0 }

  /**
   Leading blanks, an optional sign, an optional 0x, then digits; no digit at all throws.  A minus
   sign wraps at 32 bits.
   */
  function CodePoint(text: string): (r: Parsed<nat>) {
    var t := SkipSpaces(text);
    var negative := t != "" && t[0] == '-';
    var unsigned := if t != "" && (t[0] == '-' || t[0] == '+') then t[1..] else t;
    var prefixed := |unsigned| >= 2 && unsigned[0] == '0' && (unsigned[1] == 'x' || unsigned[1] == 'X');
    var digits := if prefixed && StartsHex(unsigned[2..])
                  then unsigned[2..] else unsigned;
    if !StartsHex(digits) then Throws
    else if negative then Found((0x1_0000_0000 - HexPrefix(digits, 0) % 0x1_0000_0000) % 0x1_0000_0000)
    else Found(HexPrefix(digits, 0) % 0x1_0000_0000)
  }

  function Byte(n: nat): char { (n % 256) as char }

  /** The bytes appended for a code point: one, two or three, as UTF-8 lays them out. */
  function Utf8(cp: nat): string {
    if cp < 0x80 then [Byte(cp)]
    else if cp < 0x800 then [Byte(0xC0 + cp / 64), Byte(0x80 + cp % 64)]
    else [Byte(0xE0 + cp / 4096 % 32), Byte(0x80 + cp / 64 % 64), Byte(0x80 + cp % 64)]
  }

  // ---------------------------------------------------------------------
  // json_find_string

  /** A value, std::nullopt, or an exception out of std::stoul. */
  datatype Parsed<+T> = Found(value: T) | Missing | Throws

  /** The character a one-letter escape stands for. */
  function Unescaped(c: char): Parsed<char> {
    if c == '"' || c == '\\' || c == '/' then Found(c)
    else if c == 'b' then Found(BACKSPACE)
    else if c == 'f' then Found(FORM_FEED)
    else if c == 'n' then Found('\n')
    else if c == 'r' then Found('\r')
    else if c == 't' then Found('\t')
    else Missing
  }

  /** Reads a string body from `cursor`, just after its opening quote. */
  function ReadString(json: string, cursor: nat, value: string): Parsed<string>
    decreases |json| - cursor
  {
    if cursor >= |json| then Missing
    else if json[cursor] == '"' then Found(value)
    else if json[cursor] != '\\' then ReadString(json, cursor + 1, value + [json[cursor]])
    else if cursor + 1 >= |json| then Missing
    else if json[cursor + 1] == 'u' then
      if cursor + 5 >= |json| then Missing
      else match CodePoint(json[cursor + 2..cursor + 6])
        case Found(cp) => ReadString(json, cursor + 6, value + Utf8(cp))
        case other => Throws
    else match Unescaped(json[cursor + 1])
      case Found(c) => ReadString(json, cursor + 2, value + [c])
      case other => Missing
  }

  predicate MatchesAt(text: string, needle: string, at: nat) {
    at + |needle| <= |text| && text[at..at + |needle|] == needle
  }

  /** std::string::find: the first match at or after `from`; |text| + 1 when there is none. */
  function FindNeedle(text: string, needle: string, from: nat): (at: nat)
    ensures at <= |text| ==> from <= at && MatchesAt(text, needle, at)
    ensures at > |text| ==> at == |text| + 1
    ensures forall k: nat :: from <= k < at ==> !MatchesAt(text, needle, k)
    decreases |text| - from
  {
    if from > |text| then |text| + 1
    else if MatchesAt(text, needle, from) then from
    else FindNeedle(text, needle, from + 1)
  }

  function SkipBlanks(json: string, cursor: nat): (r: nat)
    ensures r >= cursor
    decreases |json| - cursor
  {
    if cursor < |json| && (json[cursor] == ' ' || json[cursor] == '\t') then SkipBlanks(json, cursor + 1) else cursor
  }

  function Quoted(key: string): string { "\"" + key + "\"" }

  /** A match counts as a key only at the start or after `{` or `,`. */
  predicate KeyStart(json: string, at: nat)
    requires at <= |json|
  {
    at == 0 || json[at - 1] == '{' || json[at - 1] == ','
  }

  /** The cursor after `"key" : "`, if that is what stands at `at`. */
  function ValueStart(json: string, key: string, at: nat): Parsed<nat>
    requires at <= |json|
  {
    if !KeyStart(json, at) then Missing
    else
      var colon := SkipBlanks(json, at + |Quoted(key)|);
      if colon >= |json| || json[colon] != ':' then Missing
      else
        var quote := SkipBlanks(json, colon + 1);
        if quote >= |json| || json[quote] != '"' then Missing else Found(quote + 1)
  }

  function FindFrom(json: string, key: string, from: nat): Parsed<string>
    decreases |json| + 2 - from
  {
    var at := FindNeedle(json, Quoted(key), from);
    if at > |json| then Missing
    else
      var start := ValueStart(json, key, at);
      if start.Found? then ReadString(json, start.value, "") else FindFrom(json, key, at + |Quoted(key)|)
  }

  /** json_find_string. */
  function FindString(json: string, key: string): Parsed<string> {
    FindFrom(json, key, 0)
  }

  // ---------------------------------------------------------------------
  // The code

  method SkipBlanksLoop(json: string, start: nat) returns (cursor: nat)
    ensures cursor == SkipBlanks(json, start)
  {
    cursor := start;
    while cursor < |json| && (json[cursor] == ' ' || json[cursor] == '\t')
      invariant SkipBlanks(json, cursor) == SkipBlanks(json, start)
    {
      cursor := cursor + 1;
    }
  }

  /** The inner loop of json_find_string. */
  method ReadStringLoop(json: string, start: nat) returns (r: Parsed<string>)
    ensures r == ReadString(json, start, "")
  {
    hide CodePoint, Utf8, Unescaped;
    var cursor, value := start, "";
    while cursor < |json|
      invariant ReadString(json, cursor, value) == ReadString(json, start, "")
    {
      var c := json[cursor];
      if c == '"' { return Found(value); }
      if c != '\\' {
        value := value + [c];
        cursor := cursor + 1;
        continue;
      }
      cursor := cursor + 1;
      if cursor >= |json| { return Missing; }
      if json[cursor] == 'u' {
        if cursor + 4 >= |json| { return Missing; }
        match CodePoint(json[cursor + 1..cursor + 5]) {
          case Found(cp) => value := value + Utf8(cp);
          case _ => return Throws;
        }
        cursor := cursor + 4;
      } else {
        match Unescaped(json[cursor]) {
          case Found(plain) => value := value + [plain];
          case _ => return Missing;
        }
      }
      cursor := cursor + 1;
    }
    return Missing;
  }

  /** The checks json_find_string makes around one match of the quoted key. */
  method ValueStartLoop(json: string, key: string, at: nat) returns (r: Parsed<nat>)
    requires at <= |json|
    ensures r == ValueStart(json, key, at)
  {
    if !KeyStart(json, at) { return Missing; }
    var cursor := SkipBlanksLoop(json, at + |Quoted(key)|);
    if cursor >= |json| || json[cursor] != ':' { return Missing; }
    cursor := SkipBlanksLoop(json, cursor + 1);
    if cursor >= |json| || json[cursor] != '"' { return Missing; }
    return Found(cursor + 1);
  }

  method JsonFindString(json: string, key: string) returns (r: Parsed<string>)
    ensures r == FindString(json, key)
  {
    hide ReadString, ValueStart, MatchesAt;
    var pos := 0;
    while true
      invariant FindFrom(json, key, pos) == FindString(json, key)
      decreases |json| + 2 - pos
    {
      var at := FindNeedle(json, Quoted(key), pos);
      if at > |json| { return Missing; }
      var start := ValueStartLoop(json, key, at);
      if start.Found? {
        r := ReadStringLoop(json, start.value);
        return;
      }
      pos := at + |Quoted(key)|;
    }
  }

  // ---------------------------------------------------------------------
  // Escaper and extractor undo each other

  lemma HexDigitValue(d: nat)
    requires d < 16
    ensures HexValue(HexDigit(d)) == d && !IsSpace(HexDigit(d)) && HexDigit(d) != '-' && HexDigit(d) != '+'
      && HexDigit(d) != 'x' && HexDigit(d) != 'X'
  {}

  lemma HexPrefixStep(text: string, acc: nat)
    requires StartsHex(text)
    ensures HexPrefix(text, acc) == HexPrefix(text[1..], 16 * acc + HexValue(text[0]))
  {}

  lemma Utf8OfControl(n: nat)
    requires n < 0x20
    ensures Utf8(n) == [n as char]
  {}

  lemma ReadsControl(json: string, cursor: nat, value: string, c: char)
    requires cursor + 6 < |json| && c as int < 32
    requires json[cursor..cursor + 6] == "\\u00" + [HexDigit(c as int / 16), HexDigit(c as int % 16)]
    ensures ReadString(json, cursor, value) == ReadString(json, cursor + 6, value + [c])
  {
    var hi, lo := c as int / 16, c as int % 16;
    var w := json[cursor..cursor + 6];
    HexDigitsAre(0);
    HexDigitsAre(hi);
    HexDigitsAre(lo);
    Utf8OfControl(c as int);
    hide ReadString, HexDigit, HexValue, Utf8;
    assert json[cursor] == w[0] && json[cursor + 1] == w[1] && json[cursor + 2] == w[2] && json[cursor + 3] == w[3];
    assert json[cursor + 4] == w[4] && json[cursor + 5] == w[5];
    ReadsUnicode(json, cursor, value);
    assert (c as int) as char == c;
  }

  /** One escaped byte is read back as that byte. */
  lemma ReadsEscapedChar(json: string, cursor: nat, value: string, c: char)
    requires cursor + |EscapedChar(c)| < |json| && json[cursor..cursor + |EscapedChar(c)|] == EscapedChar(c)
    ensures ReadString(json, cursor, value) == ReadString(json, cursor + |EscapedChar(c)|, value + [c])
  {
    hide CodePoint, Utf8, HexDigit;
    var e := EscapedChar(c);
    var w := json[cursor..cursor + |e|];
    assert json[cursor] == w[0] == e[0];
    if |e| == 2 {
      assert json[cursor + 1] == w[1] == e[1];
      assert Unescaped(e[1]) == Found(c);
    } else if |e| > 2 {
      ReadsControl(json, cursor, value, c);
    }
  }

  lemma {:induction false} ReadsEscaped(json: string, cursor: nat, value: string, s: string)
    requires cursor + |Escaped(s)| < |json| && json[cursor..cursor + |Escaped(s)|] == Escaped(s)
    ensures ReadString(json, cursor, value) == ReadString(json, cursor + |Escaped(s)|, value + s)
  {
    hide EscapedChar, ReadString;
    if s == "" {
      assert value + s == value;
    } else {
      var front, c := s[..|s| - 1], s[|s| - 1];
      var k, e := |Escaped(front)|, EscapedChar(c);
      var whole := json[cursor..cursor + |Escaped(s)|];
      assert whole[..k] == Escaped(front) && whole[k..] == e;
      assert json[cursor..cursor + k] == whole[..k];
      assert json[cursor + k..cursor + k + |e|] == whole[k..];
      ReadsEscaped(json, cursor, value, front);
      ReadsEscapedChar(json, cursor + k, value + front, c);
      assert value + front + [c] == value + s;
    }
  }

  /** The first member of an object, printed with the escaper, is extracted exactly, whatever follows it. */
  lemma FirstMemberIsFound(key: string, s: string, rest: string)
    requires forall c <- key :: c != '"'
    ensures FindString("{" + Quoted(key) + ":\"" + Escaped(s) + "\"" + rest, key) == Found(s)
  {
    hide Escaped, FindString;
    BlanksAroundColon(key, "", "", s, rest);
    assert "{" + Quoted(key) + "" + ":" + "" + "\"" + Escaped(s) + "\"" + rest
      == "{" + Quoted(key) + ":\"" + Escaped(s) + "\"" + rest;
  }

  lemma ReadStops(json: string, cursor: nat, value: string)
    requires cursor < |json| && json[cursor] == '"'
    ensures ReadString(json, cursor, value) == Found(value)
  {}

  // ---------------------------------------------------------------------
  // The escapes of section 7 of RFC 8259, one by one

  const LOWER := "0123456789abcdef"
  const UPPER := "0123456789ABCDEF"

  lemma HexDigitsAre(d: nat)
    requires d < 16
    ensures HexDigit(d) == LOWER[d] && HexValue(LOWER[d]) == d && HexValue(UPPER[d]) == d
  {}

  lemma UpperIs(d: nat)
    requires d < 16
    ensures UPPER[d] as int == if d < 10 then '0' as int + d else 'A' as int + d - 10
  {}

  lemma OnlyHexDigits(c: char)
    ensures HexValue(c) >= 0 ==> HexValue(c) < 16 && (c == LOWER[HexValue(c)] || c == UPPER[HexValue(c)])
  {
    var v := HexValue(c);
    if v >= 0 {
      HexDigitsAre(v);
      UpperIs(v);
      hide HexDigit;
      HexDigitIs(v);
    }
  }

  lemma HexDigitIs(d: nat)
    requires d < 16
    ensures HexDigit(d) as int == if d < 10 then '0' as int + d else 'a' as int + d - 10
  {}

  /** What json_escape prints for each byte. */
  lemma EscapeTable(c: char)
    ensures EscapedChar('"') == "\\\"" && EscapedChar('\\') == "\\\\"
    ensures EscapedChar(8 as char) == "\\b" && EscapedChar(12 as char) == "\\f"
    ensures EscapedChar(10 as char) == "\\n" && EscapedChar(13 as char) == "\\r" && EscapedChar(9 as char) == "\\t"
    ensures c as int < 32 && c as int !in {8, 9, 10, 12, 13} ==>
      EscapedChar(c) == "\\u00" + [LOWER[c as int / 16], LOWER[c as int % 16]]
    ensures c as int >= 32 && c != '"' && c != '\\' ==> EscapedChar(c) == [c]
  {
    if c as int < 32 {
      HexDigitsAre(c as int / 16);
      HexDigitsAre(c as int % 16);
    }
  }

  /** Nothing below a blank is left in the output, so it can stand inside a JSON string. */
  lemma {:induction false} EscapedIsPrintable(s: string)
    ensures forall i :: 0 <= i < |Escaped(s)| ==> Escaped(s)[i] as int >= 32
  {
    if s != "" { EscapedIsPrintable(s[..|s| - 1]); }
  }

  /** What the extractor makes of a backslash and one letter. */
  lemma UnescapeTable(c: char)
    ensures Unescaped('"') == Found('"') && Unescaped('\\') == Found('\\') && Unescaped('/') == Found('/')
    ensures Unescaped('b') == Found(8 as char) && Unescaped('f') == Found(12 as char)
    ensures Unescaped('n') == Found(10 as char) && Unescaped('r') == Found(13 as char)
      && Unescaped('t') == Found(9 as char)
    ensures c != '"' && c != '\\' && c != '/' && c != 'b' && c != 'f' && c != 'n' && c != 'r' && c != 't' ==>
      Unescaped(c) == Missing
  {}

  lemma HexIsPlain(c: char)
    requires HexValue(c) >= 0
    ensures !IsSpace(c) && c != '-' && c != '+' && c != 'x' && c != 'X' && HexValue(c) < 16
  {}

  /** Text that starts with a digit and has no 0x is read as its leading digits. */
  lemma PlainDigits(t: string)
    requires StartsHex(t) && !IsSpace(t[0]) && t[0] != '-' && t[0] != '+' && (|t| >= 2 ==> t[1] != 'x' && t[1] != 'X')
    ensures CodePoint(t) == Found(HexPrefix(t, 0) % 0x1_0000_0000)
  {
    hide HexPrefix;
  }

  lemma FourPrefix(a: char, b: char, c: char, d: char)
    requires HexValue(a) >= 0 && HexValue(b) >= 0 && HexValue(c) >= 0 && HexValue(d) >= 0
    ensures HexPrefix([a, b, c, d], 0) == 4096 * HexValue(a) + 256 * HexValue(b) + 16 * HexValue(c) + HexValue(d)
  {
    hide HexValue;
    HexPrefixStep([a, b, c, d], 0);
    assert [a, b, c, d][1..] == [b, c, d];
    HexPrefixStep([b, c, d], HexValue(a));
    assert [b, c, d][1..] == [c, d];
    HexPrefixStep([c, d], 16 * HexValue(a) + HexValue(b));
    assert [c, d][1..] == [d];
    HexPrefixStep([d], 16 * (16 * HexValue(a) + HexValue(b)) + HexValue(c));
    assert [d][1..] == "";
  }

  /** Four hexadecimal digits are a number in base sixteen. */
  lemma FourHexDigits(a: char, b: char, c: char, d: char)
    requires HexValue(a) >= 0 && HexValue(b) >= 0 && HexValue(c) >= 0 && HexValue(d) >= 0
    ensures CodePoint([a, b, c, d]) == Found(4096 * HexValue(a) + 256 * HexValue(b) + 16 * HexValue(c) + HexValue(d))
  {
    HexIsPlain(a);
    HexIsPlain(b);
    HexIsPlain(c);
    HexIsPlain(d);
    hide HexValue, HexPrefix, CodePoint, IsSpace;
    FourPrefix(a, b, c, d);
    PlainDigits([a, b, c, d]);
  }

  /** std::stoul also takes a 0x. */
  lemma StoulTakesHexMark()
    ensures CodePoint("0x1f") == Found(31)
  {
    assert "0x1f"[2..] == "1f" && "1f"[1..] == "f" && "f"[1..] == "";
    assert HexPrefix("1f", 0) == HexPrefix("f", 1) == HexPrefix("", 31);
  }

  /** It takes a sign, and a negative number wraps. */
  lemma StoulTakesSign()
    ensures CodePoint("-001") == Found(0xFFFF_FFFF)
  {
    assert "-001"[1..] == "001" && "001"[1..] == "01" && "01"[1..] == "1" && "1"[1..] == "";
    assert HexPrefix("001", 0) == HexPrefix("01", 0) == HexPrefix("1", 0) == HexPrefix("", 1);
  }

  /** It skips blanks in front and stops at the first byte that is no digit. */
  lemma StoulTakesPrefix()
    ensures CodePoint(" 7zz") == Found(7)
  {
    assert " 7zz"[1..] == "7zz" && SkipSpaces(" 7zz") == SkipSpaces("7zz") == "7zz" && "7zz"[1..] == "zz";
    assert HexPrefix("7zz", 0) == HexPrefix("zz", 7) == 7;
  }

  /** It throws when there is no digit. */
  lemma StoulThrows()
    ensures CodePoint("zzzz") == Throws
  {
    assert SkipSpaces("zzzz") == "zzzz";
  }

  lemma ByteValue(n: nat)
    requires n < 256
    ensures Byte(n) as int == n
  {}

  lemma SixtyFours(cp: nat)
    ensures cp == cp / 64 * 64 + cp % 64
    ensures cp / 4096 == cp / 64 / 64 && cp / 64 == cp / 4096 * 64 + cp / 64 % 64
  {
    var q := cp / 64;
    assert cp == 64 * q + cp % 64 && q == 64 * (q / 64) + q % 64;
    assert cp == 4096 * (q / 64) + (64 * (q % 64) + cp % 64);
  }

  lemma ThreeBytes(cp: nat)
    requires cp < 0x1_0000
    ensures cp / 4096 % 32 < 16 && cp / 64 % 64 < 64 && cp % 64 < 64
    ensures cp == cp / 4096 % 32 * 4096 + cp / 64 % 64 * 64 + cp % 64
  {
    SixtyFours(cp);
    assert cp / 4096 < 16 && cp / 4096 % 32 == cp / 4096;
  }

  /** The bytes of a code point decode, as UTF-8, to the code point. */
  lemma Utf8Decodes(cp: nat)
    requires cp < 0x1_0000
    ensures var b := Utf8(cp);
      && (cp < 0x80 ==> |b| == 1 && b[0] as int == cp)
      && (0x80 <= cp < 0x800 ==>
            && |b| == 2 && 0xC0 <= b[0] as int < 0xE0 && 0x80 <= b[1] as int < 0xC0
            && cp == (b[0] as int - 0xC0) * 64 + (b[1] as int - 0x80))
      && (0x800 <= cp ==>
            && |b| == 3 && 0xE0 <= b[0] as int < 0xF0 && 0x80 <= b[1] as int < 0xC0 && 0x80 <= b[2] as int < 0xC0
            && cp == (b[0] as int - 0xE0) * 4096 + (b[1] as int - 0x80) * 64 + (b[2] as int - 0x80))
  {
    hide Byte;
    if cp < 0x80 {
      ByteValue(cp);
    } else if cp < 0x800 {
      ByteValue(0xC0 + cp / 64);
      ByteValue(0x80 + cp % 64);
    } else {
      ThreeBytes(cp);
      var x, y, z := cp / 4096 % 32, cp / 64 % 64, cp % 64;
      ByteValue(0xE0 + x);
      ByteValue(0x80 + y);
      ByteValue(0x80 + z);
      assert Utf8(cp) == [Byte(0xE0 + x), Byte(0x80 + y), Byte(0x80 + z)];
    }
  }

  /** A \u escape contributes the UTF-8 of its number. */
  lemma ReadsUnicode(json: string, cursor: nat, value: string)
    requires cursor + 5 < |json| && json[cursor] == '\\' && json[cursor + 1] == 'u'
    requires HexValue(json[cursor + 2]) >= 0 && HexValue(json[cursor + 3]) >= 0
    requires HexValue(json[cursor + 4]) >= 0 && HexValue(json[cursor + 5]) >= 0
    ensures var cp := 4096 * HexValue(json[cursor + 2]) + 256 * HexValue(json[cursor + 3])
                      + 16 * HexValue(json[cursor + 4]) + HexValue(json[cursor + 5]);
      ReadString(json, cursor, value) == ReadString(json, cursor + 6, value + Utf8(cp))
  {
    var a, b, c, d := json[cursor + 2], json[cursor + 3], json[cursor + 4], json[cursor + 5];
    FourHexDigits(a, b, c, d);
    hide CodePoint, Utf8, HexValue;
    assert json[cursor + 2..cursor + 6] == [a, b, c, d];
  }

  // ---------------------------------------------------------------------
  // Where a key may stand

  ghost predicate Blank(s: string) {
    forall i :: 0 <= i < |s| ==> s[i] == ' ' || s[i] == '\t'
  }

  lemma {:induction false} SkipsBlanks(json: string, cursor: nat, end: nat)
    requires cursor <= end < |json| && Blank(json[cursor..end]) && json[end] != ' ' && json[end] != '\t'
    ensures SkipBlanks(json, cursor) == end
    decreases end - cursor
  {
    if cursor < end {
      var s := json[cursor..end];
      assert json[cursor] == s[0] && json[cursor + 1..end] == s[1..];
      SkipsBlanks(json, cursor + 1, end);
    }
  }

  /** Key, blanks, colon, blanks, quote: where the value starts. */
  lemma ValueAfterBlanks(json: string, key: string, at: nat, colon: nat, quote: nat)
    requires at + |Quoted(key)| <= colon < quote < |json| && (at == 0 || json[at - 1] == '{' || json[at - 1] == ',')
    requires Blank(json[at + |Quoted(key)|..colon]) && json[colon] == ':' && Blank(json[colon + 1..quote])
      && json[quote] == '"'
    ensures ValueStart(json, key, at) == Found(quote + 1)
  {
    hide Blank;
    SkipsBlanks(json, at + |Quoted(key)|, colon);
    SkipsBlanks(json, colon + 1, quote);
  }

  lemma ReadsWhole(json: string, start: nat, s: string)
    requires start + |Escaped(s)| < |json|
    requires json[start..start + |Escaped(s)|] == Escaped(s) && json[start + |Escaped(s)|] == '"'
    ensures ReadString(json, start, "") == Found(s)
  {
    hide Escaped, ReadString;
    ReadsEscaped(json, start, "", s);
    ReadStops(json, start + |Escaped(s)|, s);
    assert "" + s == s;
  }

  /** Blanks and tabs may stand on either side of the colon. */
  lemma BlanksAroundColon(key: string, before: string, after: string, s: string, rest: string)
    requires (forall c <- key :: c != '"') && Blank(before) && Blank(after)
    ensures FindString("{" + Quoted(key) + before + ":" + after + "\"" + Escaped(s) + "\"" + rest, key) == Found(s)
  {
    hide Escaped, ReadString, Blank, ValueStart;
    var json := "{" + Quoted(key) + before + ":" + after + "\"" + Escaped(s) + "\"" + rest;
    var q := Quoted(key);
    var colon := 1 + |q| + |before|;
    var quote := colon + 1 + |after|;
    assert json[0] == '{' && q[0] == '"' && !MatchesAt(json, q, 0);
    assert json[1..1 + |q|] == q && FindNeedle(json, q, 0) == 1;
    assert json[1 + |q|..colon] == before && json[colon] == ':';
    assert json[colon + 1..quote] == after && json[quote] == '"';
    ValueAfterBlanks(json, key, 1, colon, quote);
    assert json[quote + 1..quote + 1 + |Escaped(s)|] == Escaped(s);
    ReadsWhole(json, quote + 1, s);
  }

  /** A quoted key counts at the start of the text or after a brace or a comma, and nowhere else. */
  lemma OnlyRealKeys(before: string, key: string, value: string)
    requires forall k: nat :: k != |before| ==>
      !MatchesAt(before + Quoted(key) + ":\"" + Escaped(value) + "\"}", Quoted(key), k)
    ensures var json := before + Quoted(key) + ":\"" + Escaped(value) + "\"}";
      var isKey := before == "" || before[|before| - 1] == '{' || before[|before| - 1] == ',';
      FindString(json, key) == if isKey then Found(value) else Missing
  {
    hide Escaped, ReadString, MatchesAt, ValueStart;
    var json, q, at := before + Quoted(key) + ":\"" + Escaped(value) + "\"}", Quoted(key), |before|;
    assert json[at..at + |q|] == q;
    MatchIs(json, q, at);
    assert FindNeedle(json, q, 0) == at;
    if at > 0 { assert json[at - 1] == before[at - 1]; }
    if at == 0 || json[at - 1] == '{' || json[at - 1] == ',' {
      assert json[at + |q|] == ':' && json[at + |q| + 1] == '"';
      assert Blank(json[at + |q|..at + |q|]) && Blank(json[at + |q| + 1..at + |q| + 1]);
      ValueAfterBlanks(json, key, at, at + |q|, at + |q| + 1);
      assert json[at + |q| + 2..at + |q| + 2 + |Escaped(value)|] == Escaped(value);
      ReadsWhole(json, at + |q| + 2, value);
    } else {
      NotAKey(json, key, at);
      assert FindNeedle(json, q, at + |q|) == |json| + 1;
      assert FindFrom(json, key, at + |q|) == Missing;
    }
  }

  lemma NotAKey(json: string, key: string, at: nat)
    requires 0 < at <= |json| && json[at - 1] != '{' && json[at - 1] != ','
    ensures ValueStart(json, key, at) == Missing
  {}

  lemma MatchIs(text: string, needle: string, at: nat)
    requires at + |needle| <= |text| && text[at..at + |needle|] == needle
    ensures MatchesAt(text, needle, at)
  {}

  /** One round of the search. */
  lemma FindRound(json: string, key: string, from: nat, at: nat)
    requires from <= at <= |json| && FindNeedle(json, Quoted(key), from) == at
    ensures var start := ValueStart(json, key, at);
      FindFrom(json, key, from)
        == if start.Found? then ReadString(json, start.value, "") else FindFrom(json, key, at + |Quoted(key)|)
  {
    hide FindNeedle, ValueStart, ReadString;
  }

  /** The needle cannot start with a character other than its first. */
  lemma FirstCharDiffers(text: string, needle: string, at: nat)
    requires at < |text| && needle != "" && text[at] != needle[0]
    ensures !MatchesAt(text, needle, at)
  {}

  lemma NeedleNext(text: string, needle: string, at: nat)
    requires at + 1 + |needle| <= |text| && !MatchesAt(text, needle, at) && text[at + 1..at + 1 + |needle|] == needle
    ensures FindNeedle(text, needle, at) == at + 1
  {}

  /** A later key is found although an earlier match was no key. */
  lemma LaterKeyIsFound(key: string, s: string)
    ensures FindString(":" + Quoted(key) + "," + Quoted(key) + ":\"" + Escaped(s) + "\"", key) == Found(s)
  {
    hide Escaped, ReadString, ValueStart, MatchesAt, FindNeedle, FindFrom, Blank;
    var q := Quoted(key);
    var json := ":" + q + "," + q + ":\"" + Escaped(s) + "\"";
    var at, quote := 2 + |q|, 3 + 2 * |q|;
    assert q[0] == '"' && json[0] == ':' && json[1 + |q|] == ',';
    FirstCharDiffers(json, q, 0);
    FirstCharDiffers(json, q, 1 + |q|);
    assert json[1..1 + |q|] == q && json[at..at + |q|] == q;
    NeedleNext(json, q, 0);
    NeedleNext(json, q, 1 + |q|);
    NotAKey(json, key, 1);
    FindRound(json, key, 0, 1);
    assert json[at + |q|] == ':' && json[quote] == '"' && json[quote + 1..quote + 1 + |Escaped(s)|] == Escaped(s);
    LaterValue(json, key, at, s);
    FindRound(json, key, 1 + |q|, at);
  }

  lemma LaterValue(json: string, key: string, at: nat, s: string)
    requires 0 < at && at + |Quoted(key)| + 2 + |Escaped(s)| < |json| && json[at - 1] == ','
    requires json[at + |Quoted(key)|] == ':' && json[at + |Quoted(key)| + 1] == '"'
    requires json[at + |Quoted(key)| + 2..at + |Quoted(key)| + 2 + |Escaped(s)|] == Escaped(s)
    requires json[at + |Quoted(key)| + 2 + |Escaped(s)|] == '"'
    ensures ValueStart(json, key, at).Found? && ReadString(json, ValueStart(json, key, at).value, "") == Found(s)
  {
    hide Escaped, ReadString, ValueStart;
    var colon := at + |Quoted(key)|;
    assert Blank(json[colon..colon]) && Blank(json[colon + 1..colon + 1]);
    ValueAfterBlanks(json, key, at, colon, colon + 1);
    ReadsWhole(json, colon + 2, s);
  }

  /** A value that is not closed, or ends within an escape, is no value; neither is one with an unknown escape. */
  lemma BadStringsAreMissing(json: string, cursor: nat, value: string)
    ensures cursor >= |json| ==> ReadString(json, cursor, value) == Missing
    ensures cursor + 1 == |json| && json[cursor] != '"' ==> ReadString(json, cursor, value) == Missing
    ensures cursor + 1 < |json| && json[cursor] == '\\' && json[cursor + 1] == 'u' && cursor + 5 >= |json| ==>
      ReadString(json, cursor, value) == Missing
    ensures cursor + 1 < |json| && json[cursor] == '\\' ==>
      json[cursor + 1] != 'u' && Unescaped(json[cursor + 1]).Missing? ==>
      ReadString(json, cursor, value) == Missing
    ensures cursor + 5 < |json| && json[cursor] == '\\' ==>
      json[cursor + 1] == 'u' && CodePoint(json[cursor + 2..cursor + 6]).Throws? ==>
      ReadString(json, cursor, value) == Throws
  {
    hide CodePoint, Unescaped, Utf8;
  }
}
