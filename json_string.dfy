/** The contents of a JSON string literal, between its quotes, as section 7 of RFC 8259
    defines them, decoded into the UTF-16 code units of the JavaScript string
    `JSON.parse` builds. A backslash must begin one of the escapes `\"` `\\` `\/` `\b`
    `\f` `\n` `\r` `\t` or `\u` followed by four hexadecimal digits; a quotation mark
    and the control characters U+0000 to U+001F may not appear unescaped. */
module JsonString {
  import opened Wrappers

  /** The code units of one character. */
  function Utf16(c: char): (units: seq<int>)
    ensures 1 <= |units| <= 2
  {
    if (c as int) < 0x1_0000 then [c as int]
    else [0xD800 + (c as int - 0x1_0000) / 0x400, 0xDC00 + (c as int - 0x1_0000) % 0x400]
  }

  /** The code units of a whole text. */
  function Units(s: string): seq<int> {
    if s == [] then [] else Utf16(s[0]) + Units(s[1..])
  }

  /** The code unit a two-character escape `\c` stands for. */
  function ShortEscape(c: char): Option<int> {
    match c
    case '"' => Some(0x22)
    case '\\' => Some(0x5C)
    case '/' => Some(0x2F)
    case 'b' => Some(0x08)
    case 'f' => Some(0x0C)
    case 'n' => Some(0x0A)
    case 'r' => Some(0x0D)
    case 't' => Some(0x09)
    case _ => None
  }

  function HexDigit(c: char): Option<int> {
    if '0' <= c <= '9' then Some(c as int - '0' as int)
    else if 'a' <= c <= 'f' then Some(c as int - 'a' as int + 10)
    else if 'A' <= c <= 'F' then Some(c as int - 'A' as int + 10)
    else None
  }

  /** The value of four hexadecimal digits. */
  function Hex4(s: string): Option<int>
    requires |s| == 4
  {
    match (HexDigit(s[0]), HexDigit(s[1]), HexDigit(s[2]), HexDigit(s[3]))
    case (Some(a), Some(b), Some(c), Some(d)) => Some(((a * 16 + b) * 16 + c) * 16 + d)
    case _ => None
  }

  /** A character that may stand for itself inside a string literal. */
  predicate IsUnescaped(c: char) {
    c != '"' && c != '\\' && (c as int) >= 0x20
  }

  function Prepend(units: seq<int>, rest: Option<seq<int>>): Option<seq<int>> {
    if rest.Some? then Some(units + rest.value) else None
  }

  /** Decodes string-literal contents, or rejects them. */
  function DecodeString(s: string): Option<seq<int>>
    decreases |s|
  {
    if s == [] then Some([])
    else if s[0] == '\\' then
      if |s| >= 2 && ShortEscape(s[1]).Some? then Prepend([ShortEscape(s[1]).value], DecodeString(s[2..]))
      else if |s| >= 6 && s[1] == 'u' && Hex4(s[2..6]).Some? then Prepend([Hex4(s[2..6]).value], DecodeString(s[6..]))
      else None
    else if IsUnescaped(s[0]) then Prepend(Utf16(s[0]), DecodeString(s[1..]))
    else None
  }
}
