/**
 * `escapeJsString`: a string turned into the text of a double-quoted
 * JavaScript string literal, as JSON.stringify writes it, and the evaluation
 * of such a literal back to the string it denotes.
 */
module JsLiteral {
  import opened Templates

  function HexDigit(d: nat): char
    requires d < 16
  {
    "0123456789abcdef"[d]
  }

  function HexValue(c: char): Option<nat>
  {
    if '0' <= c <= '9' then Some(c as nat - '0' as nat)
    else if 'a' <= c <= 'f' then Some(c as nat - 'a' as nat + 10)
    else if 'A' <= c <= 'F' then Some(c as nat - 'A' as nat + 10)
    else None
  }

  /** The escape JSON.stringify writes for one character. */
  function EscapeChar(c: char): string
  {
    var n := c as int;
    if c == '"' then "\\\""
    else if c == '\\' then "\\\\"
    else if n == 8 then "\\b"
    else if n == 9 then "\\t"
    else if n == 10 then "\\n"
    else if n == 12 then "\\f"
    else if n == 13 then "\\r"
    else if n < 32 then "\\u00" + [HexDigit(n / 16), HexDigit(n % 16)]
    else [c]
  }

  function EscapeChars(s: string): string
  {
    if s == [] then [] else EscapeChar(s[0]) + EscapeChars(s[1..])
  }

  /** JSON.stringify applied to a string. */
  function EscapeJsString(s: string): (lit: string)
    ensures |lit| >= 2 && lit[0] == '"' && lit[|lit| - 1] == '"'
  {
    "\"" + EscapeChars(s) + "\""
  }

  /** The character a one-letter escape `\x` stands for. */
  function SimpleEscape(c: char): Option<char>
  {
    if c == '"' || c == '\\' || c == '/' then Some(c)
    else if c == 'b' then Some(8 as char)
    else if c == 't' then Some(9 as char)
    else if c == 'n' then Some(10 as char)
    else if c == 'f' then Some(12 as char)
    else if c == 'r' then Some(13 as char)
    else None
  }

  /** The value of four hexadecimal digits, when they name a character. */
  function Hex4(s: string): Option<char>
    requires |s| == 4
  {
    match (HexValue(s[0]), HexValue(s[1]), HexValue(s[2]), HexValue(s[3]))
    case (Some(a), Some(b), Some(c), Some(d)) =>
      var v := ((a * 16 + b) * 16 + c) * 16 + d;
      if v < 0xD800 || 0xE000 <= v then Some(v as char) else None
    case _ => None
  }

  /** The string denoted by the characters between the quotes of a literal;
      None when they are not valid literal text. */
  function UnescapeChars(s: string): Option<string>
  {
    if s == [] then Some([])
    else if s[0] == '\\' then
      if |s| < 2 then None
      else if s[1] == 'u' then
        if |s| < 6 then None
        else match (Hex4(s[2..6]), UnescapeChars(s[6..]))
          case (Some(c), Some(rest)) => Some([c] + rest)
          case _ => None
      else match (SimpleEscape(s[1]), UnescapeChars(s[2..]))
        case (Some(c), Some(rest)) => Some([c] + rest)
        case _ => None
    else if s[0] == '"' || s[0] as int == 10 || s[0] as int == 13 then None
    else match UnescapeChars(s[1..])
      case Some(rest) => Some([s[0]] + rest)
      case None => None
  }

  /** The string a double-quoted literal evaluates to. */
  function LiteralValue(lit: string): Option<string>
  {
    if |lit| >= 2 && lit[0] == '"' && lit[|lit| - 1] == '"' then UnescapeChars(lit[1..|lit| - 1])
    else None
  }

  lemma HexRoundTrip(n: nat)
    requires n < 32
    ensures HexValue(HexDigit(n / 16)) == Some(n / 16)
    ensures HexValue(HexDigit(n % 16)) == Some(n % 16)
  {
  }

  lemma {:induction false} UnescapeEscapeChar(c: char, rest: string)
    ensures UnescapeChars(EscapeChar(c) + rest) ==
      match UnescapeChars(rest)
      case Some(t) => Some([c] + t)
      case None => None
  {
    var n := c as int;
    var s := EscapeChar(c) + rest;
    if c == '"' || c == '\\' || n == 8 || n == 9 || n == 10 || n == 12 || n == 13 {
      assert s[2..] == rest;
    } else if n < 32 {
      HexRoundTrip(n);
      assert s[2..6] == "00" + [HexDigit(n / 16), HexDigit(n % 16)];
      assert s[6..] == rest;
      assert ((0 * 16 + 0) * 16 + n / 16) * 16 + n % 16 == n;
    } else {
      assert s[1..] == rest;
    }
  }

  lemma {:induction false} UnescapeEscapeChars(s: string)
    ensures UnescapeChars(EscapeChars(s)) == Some(s)
  {
    if s != [] {
      UnescapeEscapeChars(s[1..]);
      UnescapeEscapeChar(s[0], EscapeChars(s[1..]));
      assert [s[0]] + s[1..] == s;
    }
  }

  /** The literal written for a text evaluates back to exactly that text,
      quotes, backslashes and control characters included. */
  lemma EscapeJsStringRoundTrip(s: string)
    ensures LiteralValue(EscapeJsString(s)) == Some(s)
  {
    var lit := EscapeJsString(s);
    assert lit[1..|lit| - 1] == EscapeChars(s);
    UnescapeEscapeChars(s);
  }
}
