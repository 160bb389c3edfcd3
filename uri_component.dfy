/**
 * `encodeURIComponent` and `decodeURIComponent` (ECMAScript, and the percent
 * encoding of section 2.1 of RFC 3986) over strings of Unicode scalar values:
 * every character outside the unreserved set is written as the `%XX` escapes of
 * its UTF-8 bytes, with upper-case hexadecimal digits. Decoding undoes every
 * escape and fails (the `URIError` the built-in throws) on a malformed escape or
 * on bytes that are not the UTF-8 encoding of one code point.
 */
module UriComponent {
  import opened Wrappers

  type Byte = b: int | 0 <= b < 256

  /**
   * The characters `encodeURIComponent` leaves as they are: ASCII letters,
   * digits and `-_.!~*'()`. All are visible ASCII, and none is `%`, `;`, `=`
   * or a space.
   */
  function IsUnreserved(c: char): (unreserved: bool)
    ensures unreserved ==> '!' <= c <= '~' && c != '%' && c != ';' && c != '=' && c != ' '
    ensures ('A' <= c <= 'Z') || ('a' <= c <= 'z') || ('0' <= c <= '9') ==> unreserved
  {
    || ('A' <= c <= 'Z') || ('a' <= c <= 'z') || ('0' <= c <= '9')
    || c == '-' || c == '_' || c == '.' || c == '!' || c == '~' || c == '*'
    || c == '\'' || c == '(' || c == ')'
  }

  predicate IsHexDigit(c: char) {
    ('0' <= c <= '9') || ('A' <= c <= 'F') || ('a' <= c <= 'f')
  }

  /** The upper-case hexadecimal digit for `d`. */
  function HexDigit(d: int): (c: char)
    requires 0 <= d < 16
    ensures IsHexDigit(c) && IsUnreserved(c)
  {
    if d < 10 then (('0' as int) + d) as char else (('A' as int) + d - 10) as char
  }

  /** The value of a hexadecimal digit of either case. */
  function HexValue(c: char): (d: int)
    requires IsHexDigit(c)
    ensures 0 <= d < 16
  {
    if '0' <= c <= '9' then c as int - '0' as int
    else if 'A' <= c <= 'F' then c as int - 'A' as int + 10
    else c as int - 'a' as int + 10
  }

  lemma HexValueOfDigit(d: int)
    requires 0 <= d < 16
    ensures HexValue(HexDigit(d)) == d
  {
  }

  /** A continuation byte of UTF-8, `10xxxxxx`. */
  predicate IsContinuation(b: Byte) {
    0x80 <= b < 0xC0
  }

  /** The UTF-8 encoding of one code point. */
  function Utf8Encode(c: char): (bytes: seq<Byte>)
    ensures 1 <= |bytes| <= 4
  {
    var cp := c as int;
    if cp < 0x80 then [cp]
    else if cp < 0x800 then [0xC0 + cp / 64, 0x80 + cp % 64]
    else if cp < 0x10000 then [0xE0 + cp / 4096, 0x80 + (cp / 64) % 64, 0x80 + cp % 64]
    else [0xF0 + cp / 262144, 0x80 + (cp / 4096) % 64, 0x80 + (cp / 64) % 64, 0x80 + cp % 64]
  }

  /**
   * How many bytes a UTF-8 sequence that starts with `lead` has, from its
   * leading one bits; 0 when `lead` cannot start a sequence (a continuation
   * byte, or five or more leading ones).
   */
  function SequenceLength(lead: Byte): (n: nat)
    ensures n <= 4
  {
    if lead < 0x80 then 1
    else if lead < 0xC0 then 0
    else if lead < 0xE0 then 2
    else if lead < 0xF0 then 3
    else if lead < 0xF8 then 4
    else 0
  }

  /** Is `cp` a Unicode scalar value (a code point that is not a surrogate)? */
  predicate IsScalarValue(cp: int) {
    (0 <= cp < 0xD800) || (0xE000 <= cp < 0x110000)
  }

  /**
   * The code point that `bytes` encode in UTF-8, or None when they are not a
   * valid encoding of exactly one code point: wrong length for the leading
   * byte, a bad continuation byte, an over-long form, a surrogate, or a value
   * past U+10FFFF.
   */
  function Utf8Decode(bytes: seq<Byte>): Option<char> {
    if |bytes| == 0 || SequenceLength(bytes[0]) != |bytes| then None
    else if |bytes| == 1 then Some(bytes[0] as char)
    else if exists k :: 1 <= k < |bytes| && !IsContinuation(bytes[k]) then None
    else
      var cp: int :=
        if |bytes| == 2 then (bytes[0] as int - 0xC0) * 64 + (bytes[1] as int - 0x80)
        else if |bytes| == 3 then (bytes[0] as int - 0xE0) * 4096 + (bytes[1] as int - 0x80) * 64 + (bytes[2] as int - 0x80)
        else (bytes[0] as int - 0xF0) * 262144 + (bytes[1] as int - 0x80) * 4096 + (bytes[2] as int - 0x80) * 64 + (bytes[3] as int - 0x80);
      var least := if |bytes| == 2 then 0x80 else if |bytes| == 3 then 0x800 else 0x10000;
      if least <= cp && IsScalarValue(cp) then Some(cp as char) else None
  }

  /** UTF-8 decoding undoes UTF-8 encoding. */
  lemma Utf8RoundTrip(c: char)
    ensures Utf8Decode(Utf8Encode(c)) == Some(c)
  {
    var cp := c as int;
    if cp < 0x80 {
    } else if cp < 0x800 {
      Utf8RoundTrip2(c);
    } else if cp < 0x10000 {
      Utf8RoundTrip3(c);
    } else {
      Utf8RoundTrip4(c);
    }
  }

  lemma Utf8RoundTrip2(c: char)
    requires 0x80 <= c as int < 0x800
    ensures Utf8Decode(Utf8Encode(c)) == Some(c)
  {
    var cp := c as int;
    var bytes := Utf8Encode(c);
    assert bytes[0] as int - 0xC0 == cp / 64 && bytes[1] as int - 0x80 == cp % 64;
  }

  lemma Utf8RoundTrip3(c: char)
    requires 0x800 <= c as int < 0x10000
    ensures Utf8Decode(Utf8Encode(c)) == Some(c)
  {
    var cp := c as int;
    var bytes := Utf8Encode(c);
    var q := cp / 64;
    assert cp == q * 64 + cp % 64;
    assert q == (q / 64) * 64 + q % 64;
    assert cp / 4096 == q / 64;
    assert bytes[0] as int - 0xE0 == q / 64 && bytes[1] as int - 0x80 == q % 64 && bytes[2] as int - 0x80 == cp % 64;
  }

  lemma Utf8RoundTrip4(c: char)
    requires 0x10000 <= c as int
    ensures Utf8Decode(Utf8Encode(c)) == Some(c)
  {
    var cp := c as int;
    var bytes := Utf8Encode(c);
    var q := cp / 64;
    var q2 := q / 64;
    assert cp == q * 64 + cp % 64;
    assert q == q2 * 64 + q % 64;
    assert q2 == (q2 / 64) * 64 + q2 % 64;
    assert cp / 4096 == q2;
    assert cp / 262144 == q2 / 64;
    assert bytes[0] as int - 0xF0 == q2 / 64 && bytes[1] as int - 0x80 == q2 % 64;
    assert bytes[2] as int - 0x80 == q % 64 && bytes[3] as int - 0x80 == cp % 64;
  }

  /** The three characters `%XX` that escape one byte. */
  function Escape(b: Byte): string {
    ['%', HexDigit(b / 16), HexDigit(b % 16)]
  }

  /** The escapes of a sequence of bytes, in order. */
  function Escapes(bytes: seq<Byte>): (s: string)
    ensures |s| == 3 * |bytes|
    ensures forall i :: 0 <= i < |s| ==> IsUnreserved(s[i]) || s[i] == '%'
  {
    if bytes == [] then "" else Escape(bytes[0]) + Escapes(bytes[1..])
  }

  /** The escaped form of one character: itself if unreserved, its UTF-8 escapes otherwise. */
  function EncodeChar(c: char): (s: string)
    ensures |s| >= 1
    ensures forall i :: 0 <= i < |s| ==> IsUnreserved(s[i]) || s[i] == '%'
  {
    if IsUnreserved(c) then [c] else Escapes(Utf8Encode(c))
  }

  /**
   * `encodeURIComponent(s)`. Every character of the result is unreserved or
   * `%`, so it holds no `;`, `=` or whitespace.
   */
  function Encode(s: string): (r: string)
    ensures |r| >= |s|
    ensures forall i :: 0 <= i < |r| ==> IsUnreserved(r[i]) || r[i] == '%'
  {
    if s == [] then "" else EncodeChar(s[0]) + Encode(s[1..])
  }

  /** The byte that the escape `%XX` at position `i` of `s` writes, if there is one. */
  function EscapedByte(s: string, i: nat): Option<Byte> {
    if i + 3 <= |s| && s[i] == '%' && IsHexDigit(s[i + 1]) && IsHexDigit(s[i + 2])
    then Some(HexValue(s[i + 1]) * 16 + HexValue(s[i + 2]))
    else None
  }

  /** The bytes of the `n` escapes `%XX%XX...` at the start of `s`, if they are all there. */
  function EscapedBytes(s: string, n: nat): Option<seq<Byte>>
    decreases n
  {
    if n == 0 then Some([])
    else match EscapedByte(s, 0)
      case None => None
      case Some(b) =>
        if |s| < 3 then None
        else match EscapedBytes(s[3..], n - 1)
          case None => None
          case Some(rest) => Some([b] + rest)
  }

  /**
   * The character written by the escapes at the start of `s` (which starts with
   * `%`) and how many characters of `s` they take, or None when the escapes are
   * malformed.
   */
  function DecodeEscape(s: string): (r: Option<(char, nat)>)
    ensures r.Some? ==> 3 <= r.value.1 <= |s|
  {
    match EscapedByte(s, 0)
    case None => None
    case Some(lead) =>
      var n := SequenceLength(lead);
      if n == 0 then None
      else match EscapedBytes(s, n)
        case None => None
        case Some(bytes) =>
          EscapedBytesLength(s, n);
          match Utf8Decode(bytes)
          case None => None
          case Some(c) => Some((c, 3 * n))
  }

  lemma {:induction false} EscapedBytesLength(s: string, n: nat)
    requires EscapedBytes(s, n).Some?
    ensures |EscapedBytes(s, n).value| == n && 3 * n <= |s|
    decreases n
  {
    if n > 0 {
      EscapedBytesLength(s[3..], n - 1);
    }
  }

  /**
   * `decodeURIComponent(s)`; None stands for the `URIError` it throws. Every
   * escape is at least three characters for one decoded character, so the
   * result is never longer than `s`.
   */
  function Decode(s: string): (r: Option<string>)
    ensures r.Some? ==> |r.value| <= |s|
    decreases |s|
  {
    if s == [] then Some("")
    else if s[0] != '%' then
      match Decode(s[1..])
      case None => None
      case Some(rest) => Some([s[0]] + rest)
    else
      match DecodeEscape(s)
      case None => None
      case Some((c, n)) =>
        match Decode(s[n..])
        case None => None
        case Some(rest) => Some([c] + rest)
  }

  /** Text without `%` decodes to itself. */
  lemma {:induction false} DecodeWithoutPercent(s: string)
    requires '%' !in s
    ensures Decode(s) == Some(s)
  {
    if s != [] {
      DecodeWithoutPercent(s[1..]);
      assert [s[0]] + s[1..] == s;
    }
  }

  /** Reading the escapes of `bytes` back from their written form. */
  lemma {:induction false} EscapedBytesOfEscapes(bytes: seq<Byte>, rest: string)
    ensures EscapedBytes(Escapes(bytes) + rest, |bytes|) == Some(bytes)
  {
    if bytes != [] {
      var s := Escapes(bytes) + rest;
      var b := bytes[0];
      HexValueOfDigit(b / 16);
      HexValueOfDigit(b % 16);
      assert s[..3] == Escape(b);
      assert EscapedByte(s, 0) == Some(b);
      assert s[3..] == Escapes(bytes[1..]) + rest;
      EscapedBytesOfEscapes(bytes[1..], rest);
      assert [b] + bytes[1..] == bytes;
    }
  }

  /** The decoder takes the escaped form of a reserved character back in one step. */
  lemma DecodeEscapeOfChar(c: char, rest: string)
    requires !IsUnreserved(c)
    ensures DecodeEscape(EncodeChar(c) + rest) == Some((c, |EncodeChar(c)|))
  {
    var bytes := Utf8Encode(c);
    var s := EncodeChar(c) + rest;
    EscapedBytesOfEscapes(bytes, rest);
    HexValueOfDigit(bytes[0] / 16);
    HexValueOfDigit(bytes[0] % 16);
    assert s[..3] == Escape(bytes[0]);
    assert EscapedByte(s, 0) == Some(bytes[0]);
    assert SequenceLength(bytes[0]) == |bytes|;
    Utf8RoundTrip(c);
  }

  /** Round trip: `decodeURIComponent(encodeURIComponent(s)) === s`. */
  lemma {:induction false} DecodeEncode(s: string)
    ensures Decode(Encode(s)) == Some(s)
  {
    if s != [] {
      var c := s[0];
      var e := Encode(s);
      var rest := Encode(s[1..]);
      assert e == EncodeChar(c) + rest;
      DecodeEncode(s[1..]);
      if IsUnreserved(c) {
        assert e[0] == c && e[1..] == rest;
      } else {
        DecodeEscapeOfChar(c, rest);
        assert e[0] == '%';
        assert e[|EncodeChar(c)|..] == rest;
      }
      assert [c] + s[1..] == s;
    }
  }

  /** Encoding changes exactly the strings that hold a reserved character. */
  lemma {:induction false} EncodeIdentity(s: string)
    ensures Encode(s) == s <==> forall i :: 0 <= i < |s| ==> IsUnreserved(s[i])
  {
    if s != [] {
      EncodeIdentity(s[1..]);
      if IsUnreserved(s[0]) {
        assert Encode(s) == [s[0]] + Encode(s[1..]);
        assert s == [s[0]] + s[1..];
        assert (forall i :: 0 <= i < |s| ==> IsUnreserved(s[i]))
          <==> (forall i :: 0 <= i < |s[1..]| ==> IsUnreserved(s[1..][i]));
      } else {
        assert |Encode(s)| >= 3 + |s[1..]| > |s|;
      }
    }
  }

  /** Encoding works character by character, so it distributes over concatenation. */
  lemma {:induction false} EncodeAppend(a: string, b: string)
    ensures Encode(a + b) == Encode(a) + Encode(b)
  {
    if a != [] {
      assert (a + b)[0] == a[0] && (a + b)[1..] == a[1..] + b;
      EncodeAppend(a[1..], b);
    } else {
      assert a + b == b;
    }
  }

  /** A space is written as `%20`. */
  lemma EncodeSpace()
    ensures Encode(" ") == "%20"
  {
    assert Utf8Encode(' ') == [32];
    assert Escape(32) == "%20";
  }
}
