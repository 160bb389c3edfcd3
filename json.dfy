/**
 * The JSON text `JSON.stringify({ error: message })` produces, which is every
 * error body the protected-route guard writes. Only string quoting is needed:
 * `"` and `\` are escaped, control characters use their short escape or
 * `\u00xx` with lower-case hexadecimal digits, everything else is copied.
 */
module Json {
  import opened Wrappers
  import UriComponent

  /** Characters that JSON string quoting copies unchanged. */
  predicate IsPlain(c: char) {
    c != '"' && c != '\\' && c as int >= 0x20
  }

  function LowerHexDigit(d: int): char
    requires 0 <= d < 16
  {
    if d < 10 then (('0' as int) + d) as char else (('a' as int) + d - 10) as char
  }

  /** The escape sequence for one character of a JSON string. */
  function EscapeChar(c: char): (s: string)
    ensures |s| >= 1
    ensures IsPlain(c) <==> s == [c]
  {
    if c == '"' then "\\\""
    else if c == '\\' then "\\\\"
    else if c == '\U{0008}' then "\\b"
    else if c == '\t' then "\\t"
    else if c == '\n' then "\\n"
    else if c == '\U{000C}' then "\\f"
    else if c == '\r' then "\\r"
    else if c as int < 0x20 then ['\\', 'u', '0', '0', LowerHexDigit(c as int / 16), LowerHexDigit(c as int % 16)]
    else [c]
  }

  /** The contents of the quoted JSON string for `s`, without the surrounding quotes. */
  function EscapeText(s: string): string {
    EscapeFrom(s, 0)
  }

  /** The escapes of `s[i..]`, walking the string by position as `JSON.stringify` does. */
  function EscapeFrom(s: string, i: nat): string
    requires i <= |s|
    decreases |s| - i
  {
    if i == |s| then "" else EscapeChar(s[i]) + EscapeFrom(s, i + 1)
  }

  /** Escaping from a later position is escaping the string with its first character dropped. */
  lemma {:induction false} EscapeFromShift(s: string, i: nat)
    requires 1 <= i <= |s|
    ensures EscapeFrom(s, i) == EscapeFrom(s[1..], i - 1)
    decreases |s| - i
  {
    if i < |s| {
      EscapeFromShift(s, i + 1);
      assert s[1..][i - 1] == s[i];
    }
  }

  /** The escaped text is the first character's escape followed by the rest's. */
  lemma EscapeTextCons(s: string)
    requires s != []
    ensures EscapeText(s) == EscapeChar(s[0]) + EscapeText(s[1..])
  {
    EscapeFromShift(s, 1);
  }

  /** `JSON.stringify(s)` for a string `s`: the escaped text between double quotes, never shorter than `s`. */
  function Quote(s: string): (q: string)
    ensures |q| >= |s| + 2 && q[0] == '"' && q[|q| - 1] == '"'
  {
    EscapeTextLength(s);
    "\"" + EscapeText(s) + "\""
  }

  /**
   * `JSON.stringify({ error: message })`: the message quoted inside the fixed
   * frame `{"error":"` … `"}`, and never shorter than the message.
   */
  function ErrorBody(message: string): (body: string)
    ensures |body| >= |message| + 12
    ensures body[..10] == "{\"error\":\"" && body[|body| - 2..] == "\"}"
  {
    EscapeTextLength(message);
    "{\"error\":" + Quote(message) + "}"
  }

  /** Quoting copies a string exactly when it has nothing to escape. */
  lemma {:induction false} EscapePlainText(s: string)
    ensures EscapeText(s) == s <==> forall i :: 0 <= i < |s| ==> IsPlain(s[i])
  {
    if s != [] {
      EscapeTextCons(s);
      EscapePlainText(s[1..]);
      assert s == [s[0]] + s[1..];
      if IsPlain(s[0]) {
        assert (forall i :: 0 <= i < |s| ==> IsPlain(s[i]))
          <==> (forall i :: 0 <= i < |s[1..]| ==> IsPlain(s[1..][i]));
      } else {
        EscapeTextLength(s[1..]);
        assert |EscapeChar(s[0])| >= 2;
      }
    }
  }

  lemma {:induction false} EscapeTextLength(s: string)
    ensures |EscapeText(s)| >= |s|
  {
    if s != [] {
      EscapeTextCons(s);
      EscapeTextLength(s[1..]);
    }
  }

  /** An error message with nothing to escape is written verbatim between the quotes. */
  lemma PlainErrorBody(message: string)
    requires forall i :: 0 <= i < |message| ==> IsPlain(message[i])
    ensures ErrorBody(message) == "{\"error\":\"" + message + "\"}"
  {
    EscapePlainText(message);
  }

  function HexDigitValue(c: char): Option<int> {
    if '0' <= c <= '9' then Some(c as int - '0' as int)
    else if 'a' <= c <= 'f' then Some(c as int - 'a' as int + 10)
    else if 'A' <= c <= 'F' then Some(c as int - 'A' as int + 10)
    else None
  }

  /** The value of the four hexadecimal digits at the start of `s`. */
  function HexQuad(s: string): Option<int>
    requires |s| >= 4
  {
    match (HexDigitValue(s[0]), HexDigitValue(s[1]), HexDigitValue(s[2]), HexDigitValue(s[3]))
    case (Some(a), Some(b), Some(c), Some(d)) => Some(((a * 16 + b) * 16 + c) * 16 + d)
    case _ => None
  }

  /**
   * Reads the contents of a JSON string (without its quotes) back into the
   * text it stands for; None when it holds an unescaped quote or control
   * character, or an escape JSON does not define. Escapes of surrogate code
   * points are refused, since they stand for no single character.
   */
  function Unescape(s: string): Option<string>
    decreases |s|
  {
    if s == [] then Some("")
    else if s[0] == '\\' then
      if |s| < 2 then None
      else
        var e := s[1];
        var simple :=
          if e == '"' then Some('"') else if e == '\\' then Some('\\') else if e == '/' then Some('/')
          else if e == 'b' then Some('\U{0008}') else if e == 't' then Some('\t') else if e == 'n' then Some('\n')
          else if e == 'f' then Some('\U{000C}') else if e == 'r' then Some('\r') else None;
        if simple.Some? then
          match Unescape(s[2..])
          case None => None
          case Some(rest) => Some([simple.value] + rest)
        else if e == 'u' && |s| >= 6 then
          match HexQuad(s[2..6])
          case None => None
          case Some(cp) =>
            if UriComponent.IsScalarValue(cp) then
              match Unescape(s[6..])
              case None => None
              case Some(rest) => Some([cp as char] + rest)
            else None
        else None
    else if IsPlain(s[0]) then
      match Unescape(s[1..])
      case None => None
      case Some(rest) => Some([s[0]] + rest)
    else None
  }

  /** Reading one escaped character back. */
  lemma UnescapeChar(c: char, rest: string, tail: string)
    requires Unescape(rest) == Some(tail)
    ensures Unescape(EscapeChar(c) + rest) == Some([c] + tail)
  {
    var s := EscapeChar(c) + rest;
    if IsPlain(c) {
      assert s[0] == c && s[1..] == rest;
    } else if c as int < 0x20 && c != '\U{0008}' && c != '\t' && c != '\n' && c != '\U{000C}' && c != '\r' {
      assert s[2..6] == EscapeChar(c)[2..6];
      assert s[6..] == rest;
      var hi := c as int / 16;
      var lo := c as int % 16;
      assert HexDigitValue(LowerHexDigit(hi)) == Some(hi);
      assert HexDigitValue(LowerHexDigit(lo)) == Some(lo);
      assert HexQuad(s[2..6]) == Some(c as int);
    } else {
      assert s[2..] == rest;
    }
  }

  /** Round trip: the escaped text reads back as the original text. */
  lemma {:induction false} UnescapeEscape(s: string)
    ensures Unescape(EscapeText(s)) == Some(s)
  {
    if s != [] {
      EscapeTextCons(s);
      UnescapeEscape(s[1..]);
      UnescapeChar(s[0], EscapeText(s[1..]), s[1..]);
      assert [s[0]] + s[1..] == s;
    }
  }
}
