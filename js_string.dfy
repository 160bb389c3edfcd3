/**
 * The JavaScript string built-ins the cookie code relies on:
 * `String.prototype.split` with a one-character separator, its inverse `join`,
 * and `String.prototype.trim`.
 */
module JsString {

  /**
   * ECMAScript WhiteSpace and LineTerminator code points, the set `trim`
   * removes. No visible ASCII character is one, so none of the delimiters
   * `;`, `=` and `%` is trimmed.
   */
  function IsWhitespace(c: char): (ws: bool)
    ensures ws ==> !('!' <= c <= '~')
  {
    || c == '\t' || c == '\n' || c == '\U{000B}' || c == '\U{000C}' || c == '\r' || c == ' '
    || c == '\U{00A0}' || c == '\U{1680}' || ('\U{2000}' <= c <= '\U{200A}')
    || c == '\U{2028}' || c == '\U{2029}' || c == '\U{202F}' || c == '\U{205F}'
    || c == '\U{3000}' || c == '\U{FEFF}'
  }

  /** True when `s` neither starts nor ends with whitespace. */
  predicate IsTrimmed(s: string) {
    s == [] || (!IsWhitespace(s[0]) && !IsWhitespace(s[|s| - 1]))
  }

  /**
   * Joins `parts` with `sep` between neighbours, as `Array.prototype.join` does:
   * pieces free of `sep` are joined with exactly one separator between each two.
   */
  function Join(parts: seq<string>, sep: char): (s: string)
    ensures (forall i :: 0 <= i < |parts| ==> sep !in parts[i]) ==> multiset(s)[sep] == if parts == [] then 0 else |parts| - 1
    decreases |parts|
  {
    if parts == [] then ""
    else if |parts| == 1 then parts[0]
    else parts[0] + [sep] + Join(parts[1..], sep)
  }

  /** `s.split(sep)`: the pieces of `s` between occurrences of `sep`. */
  function Split(s: string, sep: char): (parts: seq<string>)
    ensures |parts| >= 1
  {
    if s == [] then [""]
    else if s[0] == sep then [""] + Split(s[1..], sep)
    else
      var rest := Split(s[1..], sep);
      [[s[0]] + rest[0]] + rest[1..]
  }

  /** No piece holds the separator. */
  lemma {:induction false} SplitPiecesLackSeparator(s: string, sep: char)
    ensures forall i :: 0 <= i < |Split(s, sep)| ==> sep !in Split(s, sep)[i]
  {
    if s != [] {
      SplitPiecesLackSeparator(s[1..], sep);
    }
  }

  /** Joining the pieces with the separator gives back `s`. */
  lemma {:induction false} JoinSplit(s: string, sep: char)
    ensures Join(Split(s, sep), sep) == s
  {
    if s != [] {
      JoinSplit(s[1..], sep);
      var rest := Split(s[1..], sep);
      if s[0] == sep {
        assert Split(s, sep) == [""] + rest;
      } else {
        JoinExtendFirst(s[0], rest, sep);
      }
      assert s == [s[0]] + s[1..];
    }
  }

  lemma JoinExtendFirst(c: char, parts: seq<string>, sep: char)
    requires |parts| >= 1
    ensures Join([[c] + parts[0]] + parts[1..], sep) == [c] + Join(parts, sep)
  {
    var first := [c] + parts[0];
    var ps := [first] + parts[1..];
    assert ps[1..] == parts[1..];
  }

  /** The pieces are determined by the two properties Split promises, so Split inverts Join. */
  lemma {:induction false} SplitJoin(parts: seq<string>, sep: char)
    requires |parts| >= 1
    requires forall i :: 0 <= i < |parts| ==> sep !in parts[i]
    ensures Split(Join(parts, sep), sep) == parts
  {
    if |parts| == 1 {
      SplitNoSeparator(parts[0], sep);
    } else {
      var tail := Join(parts[1..], sep);
      SplitJoin(parts[1..], sep);
      SplitAfterPiece(parts[0], tail, sep);
    }
  }

  /** A string without the separator is one piece. */
  lemma {:induction false} SplitNoSeparator(s: string, sep: char)
    requires sep !in s
    ensures Split(s, sep) == [s]
  {
    if s != [] {
      SplitNoSeparator(s[1..], sep);
      assert s == [s[0]] + s[1..];
    }
  }

  /** A separator-free prefix followed by the separator becomes the first piece. */
  lemma {:induction false} SplitAfterPiece(head: string, tail: string, sep: char)
    requires sep !in head
    ensures Split(head + [sep] + tail, sep) == [head] + Split(tail, sep)
  {
    var s := head + [sep] + tail;
    if head == [] {
      assert s[0] == sep && s[1..] == tail;
    } else {
      assert s[0] == head[0];
      assert s[1..] == head[1..] + [sep] + tail;
      SplitAfterPiece(head[1..], tail, sep);
      assert [head[0]] + head[1..] == head;
    }
  }

  /** `trimStart`: removes the leading whitespace. */
  function TrimStart(s: string): string {
    if s != [] && IsWhitespace(s[0]) then TrimStart(s[1..]) else s
  }

  /** `trimEnd`: removes the trailing whitespace. */
  function TrimEnd(s: string): string {
    if s != [] && IsWhitespace(s[|s| - 1]) then TrimEnd(s[..|s| - 1]) else s
  }

  /** `s.trim()`: never longer than `s`, and neither starts nor ends with whitespace. */
  function Trim(s: string): (t: string)
    ensures |t| <= |s| && IsTrimmed(t)
  {
    TrimStartSpec(s);
    TrimEndSpec(TrimStart(s));
    TrimEnd(TrimStart(s))
  }

  /** How many characters `trimStart` removes from the front of `s`. */
  function LeadingWhitespace(s: string): nat {
    TrimStartSpec(s);
    |s| - |TrimStart(s)|
  }

  /**
   * `trimStart` removes the leading whitespace and only that: its result is a
   * suffix of `s` that does not start with whitespace.
   */
  lemma {:induction false} TrimStartSpec(s: string)
    ensures |TrimStart(s)| <= |s| && TrimStart(s) == s[|s| - |TrimStart(s)|..]
    ensures forall k :: 0 <= k < |s| - |TrimStart(s)| ==> IsWhitespace(s[k])
    ensures TrimStart(s) != [] ==> !IsWhitespace(TrimStart(s)[0])
  {
    if s != [] && IsWhitespace(s[0]) {
      var t := s[1..];
      TrimStartSpec(t);
      assert TrimStart(s) == TrimStart(t);
      assert t[|t| - |TrimStart(t)|..] == s[|s| - |TrimStart(t)|..];
      assert forall k :: 1 <= k < |s| - |TrimStart(s)| ==> s[k] == t[k - 1];
    }
  }

  /**
   * `trimEnd` removes the trailing whitespace and only that: its result is a
   * prefix of `s` that does not end with whitespace.
   */
  lemma {:induction false} TrimEndSpec(s: string)
    ensures |TrimEnd(s)| <= |s| && TrimEnd(s) == s[..|TrimEnd(s)|]
    ensures forall k :: |TrimEnd(s)| <= k < |s| ==> IsWhitespace(s[k])
    ensures TrimEnd(s) != [] ==> !IsWhitespace(TrimEnd(s)[|TrimEnd(s)| - 1])
  {
    if s != [] && IsWhitespace(s[|s| - 1]) {
      var t := s[..|s| - 1];
      TrimEndSpec(t);
      assert TrimEnd(s) == TrimEnd(t);
      assert t[..|TrimEnd(t)|] == s[..|TrimEnd(t)|];
      assert forall k :: |TrimEnd(s)| <= k < |s| - 1 ==> s[k] == t[k];
    }
  }

  /**
   * `s.trim()` is the slice of `s` left after removing the whitespace on both
   * sides: everything removed is whitespace and the result is trimmed.
   */
  lemma TrimSpec(s: string)
    ensures IsTrimmed(Trim(s))
    ensures LeadingWhitespace(s) + |Trim(s)| <= |s|
    ensures Trim(s) == s[LeadingWhitespace(s)..LeadingWhitespace(s) + |Trim(s)|]
    ensures forall k :: 0 <= k < LeadingWhitespace(s) ==> IsWhitespace(s[k])
    ensures forall k :: LeadingWhitespace(s) + |Trim(s)| <= k < |s| ==> IsWhitespace(s[k])
  {
    var t := TrimStart(s);
    TrimStartSpec(s);
    TrimEndSpec(t);
    var r := TrimEnd(t);
    var i := |s| - |t|;
    assert r == s[i..i + |r|];
    assert r != [] ==> r[0] == t[0];
  }

  /** Trimming leaves a trimmed string unchanged. */
  lemma TrimTrimmed(s: string)
    requires IsTrimmed(s)
    ensures Trim(s) == s
  {
  }

  /** Trimming twice is trimming once. */
  lemma TrimIdempotent(s: string)
    ensures Trim(Trim(s)) == Trim(s)
  {
    TrimSpec(s);
    TrimTrimmed(Trim(s));
  }

  /** Leading whitespace in front of a string with no leading whitespace is removed by trimStart. */
  lemma {:induction false} TrimAfterWhitespace(w: string, s: string)
    requires forall k :: 0 <= k < |w| ==> IsWhitespace(w[k])
    requires s == [] || !IsWhitespace(s[0])
    ensures TrimStart(w + s) == s
  {
    if w == [] {
      assert w + s == s;
    } else {
      assert (w + s)[0] == w[0];
      assert (w + s)[1..] == w[1..] + s;
      TrimAfterWhitespace(w[1..], s);
    }
  }

  /** Trailing whitespace after a trimmed string is removed by trimEnd. */
  lemma {:induction false} TrimEndBeforeWhitespace(s: string, w: string)
    requires forall k :: 0 <= k < |w| ==> IsWhitespace(w[k])
    requires s == [] || !IsWhitespace(s[|s| - 1])
    ensures TrimEnd(s + w) == s
    decreases |w|
  {
    if w == [] {
      assert s + w == s;
    } else {
      var w' := w[..|w| - 1];
      assert (s + w)[..|s + w| - 1] == s + w';
      TrimEndBeforeWhitespace(s, w');
    }
  }

  /** The text between two runs of whitespace is what trim keeps. */
  lemma TrimAround(w1: string, s: string, w2: string)
    requires forall k :: 0 <= k < |w1| ==> IsWhitespace(w1[k])
    requires forall k :: 0 <= k < |w2| ==> IsWhitespace(w2[k])
    requires IsTrimmed(s)
    ensures Trim(w1 + s + w2) == s
  {
    if s == [] {
      assert w1 + s + w2 == w1 + w2;
      var w := w1 + w2;
      assert forall k :: 0 <= k < |w| ==> IsWhitespace(w[k]);
      TrimAfterWhitespace(w, s);
      assert w + s == w;
    } else {
      TrimEndBeforeWhitespace(s, w2);
      TrimAfterWhitespace(w1, s + w2);
      assert w1 + s + w2 == w1 + (s + w2);
    }
  }
}
