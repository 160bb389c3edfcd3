/**
 * `parseCookies` (src/utils/parseCookies.ts): a `Cookie` request header
 * becomes a name-to-value record. The header is split on `;`; each segment is
 * split on `=` and its pieces trimmed; the first piece is the name and the
 * second, percent-decoded, the value. Later segments overwrite earlier ones.
 * The result is None when `decodeURIComponent` throws on some value.
 */
module ParseCookies {
  import opened Wrappers
  import opened JsString
  import opened UriComponent

  type CookieJar = map<string, string>

  /** The one key a plain object literal ignores on assignment of a string: its prototype setter. */
  const ProtoKey := "__proto__"

  /** The trimmed text before the first `=` of a segment: it holds no `=` and no surrounding whitespace. */
  function SegmentName(segment: string): (name: string)
    ensures IsTrimmed(name) && '=' !in name
  {
    SplitPiecesLackSeparator(segment, '=');
    TrimSpec(Split(segment, '=')[0]);
    Trim(Split(segment, '=')[0])
  }

  /**
   * The trimmed text between the first and second `=` of a segment, still
   * encoded; a segment without `=` has the value `undefined`, which
   * `decodeURIComponent` turns into the string "undefined".
   */
  function RawSegmentValue(segment: string): (raw: string)
    ensures IsTrimmed(raw) && '=' !in raw
  {
    var pieces := Split(segment, '=');
    SplitPiecesLackSeparator(segment, '=');
    if |pieces| >= 2 then TrimSpec(pieces[1]); Trim(pieces[1]) else "undefined"
  }

  /**
   * `cookies[name] = value` on the accumulator object: every name but
   * `__proto__` now maps to `value`, and every other entry is kept.
   */
  function Assign(jar: CookieJar, name: string, value: string): (r: CookieJar)
    ensures name != ProtoKey ==> name in r && r[name] == value
    ensures forall k :: k != name ==> (k in r <==> k in jar)
    ensures forall k :: k in r && k != name ==> r[k] == jar[k]
    ensures ProtoKey in r <==> ProtoKey in jar
  {
    if name == ProtoKey then jar else jar[name := value]
  }

  /**
   * The `reduce` over the segments, from the accumulator `jar`: it only ever
   * adds names, and never the name `__proto__`.
   */
  function Fold(jar: CookieJar, segments: seq<string>): (r: Option<CookieJar>)
    ensures r.Some? ==> jar.Keys <= r.value.Keys
    ensures r.Some? ==> (ProtoKey in r.value <==> ProtoKey in jar)
    decreases |segments|
  {
    if segments == [] then Some(jar)
    else match Decode(RawSegmentValue(segments[0]))
      case None => None
      case Some(value) => Fold(Assign(jar, SegmentName(segments[0]), value), segments[1..])
  }

  /** The `;`-separated segments of a header: at least one, and none holding a `;`. */
  function Segments(header: string): (segments: seq<string>)
    ensures |segments| >= 1
    ensures forall i :: 0 <= i < |segments| ==> ';' !in segments[i]
  {
    SplitPiecesLackSeparator(header, ';');
    Split(header, ';')
  }

  /** `parseCookies(cookieHeader)`; an absent or empty header gives the empty record. */
  function Parse(header: Option<string>): (r: Option<CookieJar>)
    ensures header == None || header == Some("") ==> r == Some(map[])
  {
    if header == None || header == Some("") then Some(map[])
    else Fold(map[], Segments(header.value))
  }

  // ---------------------------------------------------------------------------
  // What the fold computes

  /** The fold fails exactly when some segment's value does not decode. */
  lemma {:induction false} FoldFails(jar: CookieJar, segments: seq<string>)
    ensures Fold(jar, segments) == None
        <==> exists i :: 0 <= i < |segments| && Decode(RawSegmentValue(segments[i])) == None
    decreases |segments|
  {
    if segments != [] {
      match Decode(RawSegmentValue(segments[0]))
      case None =>
      case Some(value) =>
        var next := Assign(jar, SegmentName(segments[0]), value);
        FoldFails(next, segments[1..]);
        if exists i :: 0 <= i < |segments| && Decode(RawSegmentValue(segments[i])) == None {
          var i :| 0 <= i < |segments| && Decode(RawSegmentValue(segments[i])) == None;
          assert segments[1..][i - 1] == segments[i];
        }
        if exists i :: 0 <= i < |segments[1..]| && Decode(RawSegmentValue(segments[1..][i])) == None {
          var i :| 0 <= i < |segments[1..]| && Decode(RawSegmentValue(segments[1..][i])) == None;
          assert segments[i + 1] == segments[1..][i];
        }
    }
  }

  /**
   * The keys after the fold: those of the accumulator plus the name of every
   * segment, except the prototype key, which never becomes an own key.
   */
  lemma {:induction false} FoldKeys(jar: CookieJar, segments: seq<string>, result: CookieJar)
    requires ProtoKey !in jar
    requires Fold(jar, segments) == Some(result)
    ensures ProtoKey !in result
    ensures forall k :: k in result <==>
      k in jar || (k != ProtoKey && exists i :: 0 <= i < |segments| && SegmentName(segments[i]) == k)
    decreases |segments|
  {
    if segments != [] {
      var value := Decode(RawSegmentValue(segments[0])).value;
      var next := Assign(jar, SegmentName(segments[0]), value);
      FoldKeys(next, segments[1..], result);
      forall k ensures k in result <==>
        k in jar || (k != ProtoKey && exists i :: 0 <= i < |segments| && SegmentName(segments[i]) == k)
      {
        if k != ProtoKey && exists i :: 0 <= i < |segments| && SegmentName(segments[i]) == k {
          var i :| 0 <= i < |segments| && SegmentName(segments[i]) == k;
          if i > 0 {
            assert segments[1..][i - 1] == segments[i];
          }
        }
        if exists i :: 0 <= i < |segments[1..]| && SegmentName(segments[1..][i]) == k {
          var i :| 0 <= i < |segments[1..]| && SegmentName(segments[1..][i]) == k;
          assert segments[i + 1] == segments[1..][i];
        }
      }
    }
  }

  /**
   * Last one wins: the value under a name is the decoded value of the last
   * segment with that name; a name no segment has keeps its accumulator value.
   */
  lemma {:induction false} FoldLastWins(jar: CookieJar, segments: seq<string>, result: CookieJar, i: nat)
    requires Fold(jar, segments) == Some(result)
    requires i < |segments| && SegmentName(segments[i]) != ProtoKey
    requires forall j :: i < j < |segments| ==> SegmentName(segments[j]) != SegmentName(segments[i])
    ensures SegmentName(segments[i]) in result
    ensures Decode(RawSegmentValue(segments[i])) == Some(result[SegmentName(segments[i])])
    decreases |segments|
  {
    var value := Decode(RawSegmentValue(segments[0])).value;
    var next := Assign(jar, SegmentName(segments[0]), value);
    if i == 0 {
      FoldUntouched(next, segments[1..], result, SegmentName(segments[0]));
    } else {
      forall j | i - 1 < j < |segments[1..]|
        ensures SegmentName(segments[1..][j]) != SegmentName(segments[1..][i - 1])
      {
        assert segments[1..][j] == segments[j + 1];
      }
      FoldLastWins(next, segments[1..], result, i - 1);
    }
  }

  /** A name that no segment carries keeps the value it had in the accumulator. */
  lemma {:induction false} FoldUntouched(jar: CookieJar, segments: seq<string>, result: CookieJar, k: string)
    requires Fold(jar, segments) == Some(result)
    requires forall j :: 0 <= j < |segments| ==> SegmentName(segments[j]) != k
    ensures k in result <==> k in jar
    ensures k in jar ==> result[k] == jar[k]
    decreases |segments|
  {
    if segments != [] {
      var value := Decode(RawSegmentValue(segments[0])).value;
      var next := Assign(jar, SegmentName(segments[0]), value);
      forall j | 0 <= j < |segments[1..]| ensures SegmentName(segments[1..][j]) != k {
        assert segments[1..][j] == segments[j + 1];
      }
      FoldUntouched(next, segments[1..], result, k);
    }
  }

  /** A non-empty header parses by folding over its segments, and fails exactly when some value does not decode. */
  lemma ParseFails(header: string)
    requires header != ""
    ensures Parse(Some(header)) == None
        <==> exists i :: 0 <= i < |Segments(header)| && Decode(RawSegmentValue(Segments(header)[i])) == None
  {
    FoldFails(map[], Segments(header));
  }

  /** The keys of a parsed header are exactly the segment names (other than `__proto__`). */
  lemma ParseKeys(header: string, jar: CookieJar)
    requires header != ""
    requires Parse(Some(header)) == Some(jar)
    ensures forall k :: k in jar <==>
      k != ProtoKey && exists i :: 0 <= i < |Segments(header)| && SegmentName(Segments(header)[i]) == k
  {
    var empty: CookieJar := map[];
    FoldKeys(empty, Segments(header), jar);
  }

  /** Last one wins, stated on `parseCookies`: a name's value comes from the last segment with that name. */
  lemma ParseLastWins(header: string, jar: CookieJar, i: nat)
    requires header != ""
    requires Parse(Some(header)) == Some(jar)
    requires i < |Segments(header)| && SegmentName(Segments(header)[i]) != ProtoKey
    requires forall j :: i < j < |Segments(header)| ==>
      SegmentName(Segments(header)[j]) != SegmentName(Segments(header)[i])
    ensures SegmentName(Segments(header)[i]) in jar
    ensures Decode(RawSegmentValue(Segments(header)[i])) == Some(jar[SegmentName(Segments(header)[i])])
  {
    FoldLastWins(map[], Segments(header), jar, i);
  }

  // ---------------------------------------------------------------------------
  // One segment

  /** The text before the first `=` is the name and the text after it the value, both trimmed. */
  lemma SegmentWithValue(name: string, value: string)
    requires '=' !in name && '=' !in value
    ensures SegmentName(name + "=" + value) == Trim(name)
    ensures RawSegmentValue(name + "=" + value) == Trim(value)
  {
    SplitNoSeparator(value, '=');
    SplitPieces(name, value);
  }

  /** With a second `=`, the text after it does not reach the value. */
  lemma SegmentWithSecondEquals(name: string, value: string, rest: string)
    requires '=' !in name && '=' !in value
    ensures SegmentName(name + "=" + value + "=" + rest) == Trim(name)
    ensures RawSegmentValue(name + "=" + value + "=" + rest) == Trim(value)
  {
    SplitPieces(name, value + "=" + rest);
    SplitAfterPiece(value, rest, '=');
    assert value + "=" + rest == value + ['='] + rest;
    assert name + "=" + value + "=" + rest == name + "=" + (value + "=" + rest);
  }

  lemma SplitPieces(first: string, rest: string)
    requires '=' !in first
    ensures Split(first + "=" + rest, '=') == [first] + Split(rest, '=')
  {
    SplitAfterPiece(first, rest, '=');
    assert first + "=" + rest == first + ['='] + rest;
  }

  /** A segment without `=` is a name whose value is the text "undefined". */
  lemma SegmentWithoutValue(segment: string)
    requires '=' !in segment
    ensures SegmentName(segment) == Trim(segment)
    ensures RawSegmentValue(segment) == "undefined"
    ensures Decode(RawSegmentValue(segment)) == Some("undefined")
  {
    SplitNoSeparator(segment, '=');
    DecodeWithoutPercent("undefined");
  }

  // ---------------------------------------------------------------------------
  // Round trip with the header a user agent sends

  /** A name that reads back as itself: no `;` or `=`, no surrounding whitespace, not the prototype key. */
  predicate IsCookieName(name: string) {
    ';' !in name && '=' !in name && IsTrimmed(name) && name != ProtoKey
  }

  /**
   * `name=encodeURIComponent(value)`, the form `setCookie` writes a pair in:
   * for a name without `;` or `=`, the pair holds no `;` and splits at its one
   * `=` into the name and the encoded value.
   */
  function PairText(name: string, value: string): (pair: string)
    ensures ';' !in name ==> ';' !in pair
    ensures '=' !in name ==> Split(pair, '=') == [name, Encode(value)]
  {
    EncodedValueIsInert(value);
    SplitNoSeparator(Encode(value), '=');
    if '=' in name then name + "=" + Encode(value)
    else SplitAfterPiece(name, Encode(value), '='); name + "=" + Encode(value)
  }

  /**
   * The `Cookie` header a user agent sends back for `pairs`, in the form of
   * section 5.4 of RFC 6265: the pairs joined by "; ".
   */
  function CookieHeader(pairs: seq<(string, string)>): string
    decreases |pairs|
  {
    if pairs == [] then ""
    else if |pairs| == 1 then PairText(pairs[0].0, pairs[0].1)
    else PairText(pairs[0].0, pairs[0].1) + "; " + CookieHeader(pairs[1..])
  }

  /** The record that maps each name to the value of its last pair. */
  function PairsInto(jar: CookieJar, pairs: seq<(string, string)>): CookieJar
    decreases |pairs|
  {
    if pairs == [] then jar else PairsInto(jar[pairs[0].0 := pairs[0].1], pairs[1..])
  }

  /** The encoded value has nothing that splitting or trimming would touch. */
  lemma EncodedValueIsInert(value: string)
    ensures ';' !in Encode(value) && '=' !in Encode(value)
    ensures IsTrimmed(Encode(value))
  {
    var e := Encode(value);
    assert forall k :: 0 <= k < |e| ==> !IsWhitespace(e[k]) && e[k] != ';' && e[k] != '=';
  }

  /** One pair, with or without the space a "; " separator leaves, is read back as that pair. */
  lemma PairSegment(lead: string, name: string, value: string)
    requires lead == "" || lead == " "
    requires IsCookieName(name)
    ensures SegmentName(lead + PairText(name, value)) == name
    ensures RawSegmentValue(lead + PairText(name, value)) == Encode(value)
  {
    var e := Encode(value);
    EncodedValueIsInert(value);
    LeadName(lead, name);
    PairShape(lead, name, e);
    SegmentWithValue(lead + name, e);
    TrimTrimmed(e);
  }

  /** The space a "; " separator leaves before a name is trimmed away and holds no `=`. */
  lemma LeadName(lead: string, name: string)
    requires lead == "" || lead == " "
    requires IsCookieName(name)
    ensures Trim(lead + name) == name && '=' !in lead + name
  {
    TrimAround(lead, name, "");
    assert lead + name + "" == lead + name;
  }

  /**
   * Regrouping of a segment with its leading space. Stated on its own because
   * the same fact asserted inside `PairSegment` is far costlier to prove there.
   */
  lemma PairShape(lead: string, name: string, e: string)
    ensures lead + (name + "=" + e) == (lead + name) + "=" + e
  {
  }

  /** One step of the fold over a segment whose name and decoded value are known. */
  lemma FoldStep(jar: CookieJar, segments: seq<string>, name: string, value: string)
    requires segments != [] && name != ProtoKey
    requires SegmentName(segments[0]) == name
    requires Decode(RawSegmentValue(segments[0])) == Some(value)
    ensures Fold(jar, segments) == Fold(jar[name := value], segments[1..])
  {
  }

  /** The first segment of a header for `pairs` is the first pair; the rest is the header for the others. */
  lemma HeaderSegments(lead: string, pairs: seq<(string, string)>)
    requires lead == "" || lead == " "
    requires pairs != [] && IsCookieName(pairs[0].0)
    ensures |pairs| == 1 ==> Segments(lead + CookieHeader(pairs)) == [lead + PairText(pairs[0].0, pairs[0].1)]
    ensures |pairs| > 1 ==>
      Segments(lead + CookieHeader(pairs))
      == [lead + PairText(pairs[0].0, pairs[0].1)] + Segments(" " + CookieHeader(pairs[1..]))
  {
    var segment := lead + PairText(pairs[0].0, pairs[0].1);
    EncodedValueIsInert(pairs[0].1);
    assert ';' !in segment;
    if |pairs| == 1 {
      SplitNoSeparator(segment, ';');
    } else {
      var tail := " " + CookieHeader(pairs[1..]);
      Concat3(lead, PairText(pairs[0].0, pairs[0].1), CookieHeader(pairs[1..]));
      SplitAfterPiece(segment, tail, ';');
    }
  }

  /**
   * Regrouping of a header around its first `;`. Stated on its own because the
   * same fact asserted inside `HeaderSegments` is far costlier to prove there.
   */
  lemma Concat3(lead: string, first: string, rest: string)
    ensures lead + (first + "; " + rest) == (lead + first) + [';'] + (" " + rest)
  {
  }

  lemma {:induction false} FoldCookieHeader(jar: CookieJar, lead: string, pairs: seq<(string, string)>)
    requires lead == "" || lead == " "
    requires pairs != []
    requires forall i :: 0 <= i < |pairs| ==> IsCookieName(pairs[i].0)
    ensures Fold(jar, Segments(lead + CookieHeader(pairs))) == Some(PairsInto(jar, pairs))
    decreases |pairs|
  {
    var name, value := pairs[0].0, pairs[0].1;
    var segments := Segments(lead + CookieHeader(pairs));
    HeaderSegments(lead, pairs);
    PairSegment(lead, name, value);
    DecodeEncode(value);
    FoldStep(jar, segments, name, value);
    if |pairs| > 1 {
      FoldCookieHeader(jar[name := value], " ", pairs[1..]);
    }
  }

  /**
   * Round trip: the header a user agent sends for pairs that `setCookie` wrote
   * parses to those pairs, the later of two equal names winning.
   */
  lemma ParseCookieHeader(pairs: seq<(string, string)>)
    requires forall i :: 0 <= i < |pairs| ==> IsCookieName(pairs[i].0)
    ensures Parse(Some(CookieHeader(pairs))) == Some(PairsInto(map[], pairs))
  {
    if pairs != [] {
      FoldCookieHeader(map[], "", pairs);
      assert "" + CookieHeader(pairs) == CookieHeader(pairs);
      assert CookieHeader(pairs) != "" by {
        assert |PairText(pairs[0].0, pairs[0].1)| >= 1;
      }
    }
  }

  // ---------------------------------------------------------------------------
  // The behaviour the unit tests and the code fix, as laws over names and values

  /** Text that encoding leaves as it is: only unreserved characters. */
  predicate IsPlainValue(value: string) {
    forall i :: 0 <= i < |value| ==> IsUnreserved(value[i])
  }

  lemma PlainValueFacts(value: string)
    requires IsPlainValue(value)
    ensures Encode(value) == value
    ensures Decode(value) == Some(value)
    ensures IsTrimmed(value) && ';' !in value && '=' !in value
  {
    EncodeIdentity(value);
    DecodeWithoutPercent(value);
    EncodedValueIsInert(value);
  }

  /** `name=value` with a plain value gives exactly `{ name: value }` (for example `name=value`). */
  lemma SinglePair(name: string, value: string)
    requires IsCookieName(name) && IsPlainValue(value)
    ensures Parse(Some(name + "=" + value)) == Some(map[name := value])
  {
    PlainValueFacts(value);
    ParseCookieHeader([(name, value)]);
  }

  /**
   * Two pairs separated by "; " give both entries, and the second wins when the
   * names are equal (for example `name1=value1; name2=value2`, and
   * `name=; anotherName=anotherValue` with an empty first value).
   */
  lemma TwoPairs(name1: string, value1: string, name2: string, value2: string)
    requires IsCookieName(name1) && IsPlainValue(value1)
    requires IsCookieName(name2) && IsPlainValue(value2)
    ensures Parse(Some(name1 + "=" + value1 + "; " + name2 + "=" + value2))
      == Some(map[name1 := value1][name2 := value2])
  {
    var pairs := [(name1, value1), (name2, value2)];
    TwoPairHeader(name1, value1, name2, value2);
    ParseCookieHeader(pairs);
  }

  lemma TwoPairHeader(name1: string, value1: string, name2: string, value2: string)
    requires IsPlainValue(value1) && IsPlainValue(value2)
    ensures CookieHeader([(name1, value1), (name2, value2)]) == name1 + "=" + value1 + "; " + name2 + "=" + value2
    ensures PairsInto(map[], [(name1, value1), (name2, value2)]) == map[name1 := value1][name2 := value2]
  {
    EncodeIdentity(value1);
    EncodeIdentity(value2);
    var pairs := [(name1, value1), (name2, value2)];
    assert pairs[1..] == [(name2, value2)];
    assert CookieHeader(pairs) == PairText(name1, value1) + "; " + PairText(name2, value2);
    TwoPairJar(name1, value1, name2, value2);
  }

  lemma TwoPairJar(name1: string, value1: string, name2: string, value2: string)
    ensures PairsInto(map[], [(name1, value1), (name2, value2)]) == map[name1 := value1][name2 := value2]
  {
    var pairs := [(name1, value1), (name2, value2)];
    assert pairs[1..] == [(name2, value2)];
    var m: CookieJar := map[];
    assert PairsInto(m, pairs) == PairsInto(m[name1 := value1], [(name2, value2)]);
    assert [(name2, value2)][1..] == [];
    assert PairsInto(m[name1 := value1], [(name2, value2)]) == PairsInto(m[name1 := value1][name2 := value2], []);
  }

  /**
   * Trimming comes before decoding, so spaces written as `%20` survive
   * (for example `encodedName=%20value%20` gives " value ").
   */
  lemma EncodedSpacesSurvive(name: string, value: string)
    requires IsCookieName(name) && IsPlainValue(value)
    ensures Parse(Some(name + "=%20" + value + "%20")) == Some(map[name := " " + value + " "])
  {
    var spaced := " " + value + " ";
    var header := name + "=%20" + value + "%20";
    EncodeSpaced(value);
    assert CookieHeader([(name, spaced)]) == header by {
      assert PairText(name, spaced) == name + "=" + Encode(spaced);
    }
    ParseCookieHeader([(name, spaced)]);
    assert PairsInto(map[], [(name, spaced)]) == map[name := spaced];
  }

  lemma EncodeSpaced(value: string)
    requires IsPlainValue(value)
    ensures Encode(" " + value + " ") == "%20" + value + "%20"
  {
    PlainValueFacts(value);
    EncodeSpace();
    EncodeAppend(" ", value);
    EncodeAppend(" " + value, " ");
  }

  /** Whitespace around the name and around the value is removed. */
  lemma WhitespaceTrimmed(w1: string, name: string, w2: string, w3: string, value: string, w4: string)
    requires forall k :: 0 <= k < |w1| ==> IsWhitespace(w1[k])
    requires forall k :: 0 <= k < |w2| ==> IsWhitespace(w2[k])
    requires forall k :: 0 <= k < |w3| ==> IsWhitespace(w3[k])
    requires forall k :: 0 <= k < |w4| ==> IsWhitespace(w4[k])
    requires IsCookieName(name) && IsPlainValue(value)
    ensures Parse(Some(w1 + name + w2 + "=" + w3 + value + w4)) == Some(map[name := value])
  {
    PlainValueFacts(value);
    var left, right := w1 + name + w2, w3 + value + w4;
    var segment := left + "=" + right;
    assert w1 + name + w2 + "=" + w3 + value + w4 == segment;
    assert forall k :: 0 <= k < |w1| ==> w1[k] != ';' && w1[k] != '=';
    assert forall k :: 0 <= k < |w2| ==> w2[k] != ';' && w2[k] != '=';
    assert forall k :: 0 <= k < |w3| ==> w3[k] != ';' && w3[k] != '=';
    assert forall k :: 0 <= k < |w4| ==> w4[k] != ';' && w4[k] != '=';
    assert '=' !in left && '=' !in right && ';' !in segment;
    SplitNoSeparator(segment, ';');
    SegmentWithValue(left, right);
    TrimAround(w1, name, w2);
    TrimAround(w3, value, w4);
    FoldStep(map[], [segment], name, value);
  }

  /** Everything after a second `=` is dropped (for example `a=b=c` gives `b`). */
  lemma SecondEqualsDropsRest(name: string, value: string, rest: string)
    requires IsCookieName(name) && IsPlainValue(value) && ';' !in rest
    ensures Parse(Some(name + "=" + value + "=" + rest)) == Some(map[name := value])
  {
    PlainValueFacts(value);
    var segment := name + "=" + value + "=" + rest;
    SingleSegment(name + "=" + value + "=", rest);
    SegmentWithSecondEquals(name, value, rest);
    TrimTrimmed(name);
    TrimTrimmed(value);
    FoldStep(map[], [segment], name, value);
  }

  /** A header without `;` is one segment. */
  lemma SingleSegment(first: string, rest: string)
    requires ';' !in first && ';' !in rest
    ensures Segments(first + rest) == [first + rest]
  {
    SplitNoSeparator(first + rest, ';');
  }

  /** A segment without `=` gets the text "undefined" as its value. */
  lemma NameWithoutValue(name: string)
    requires IsCookieName(name) && name != ""
    ensures Parse(Some(name)) == Some(map[name := "undefined"])
  {
    SplitNoSeparator(name, ';');
    SegmentWithoutValue(name);
    TrimTrimmed(name);
    FoldStep(map[], [name], name, "undefined");
  }

  /** A trailing `;` leaves an empty segment: the name "" with the value "undefined". */
  lemma TrailingSemicolon(name: string, value: string)
    requires IsCookieName(name) && IsPlainValue(value)
    ensures Parse(Some(name + "=" + value + ";")) == Some(map[name := value]["" := "undefined"])
  {
    PlainValueFacts(value);
    var segment := name + "=" + value;
    assert name + "=" + value + ";" == segment + [';'] + "";
    assert ';' !in segment;
    SplitAfterPiece(segment, "", ';');
    var segments := [segment, ""];
    assert Segments(name + "=" + value + ";") == segments;
    SegmentWithValue(name, value);
    TrimTrimmed(name);
    SegmentWithoutValue("");
    FoldStep(map[], segments, name, value);
    FoldStep(map[name := value], segments[1..], "", "undefined");
  }

  /** Assigning a string to `__proto__` on an object literal does nothing, so that cookie is lost. */
  lemma ProtoNameIgnored(value: string)
    requires IsPlainValue(value)
    ensures Parse(Some(ProtoKey + "=" + value)) == Some(map[])
  {
    PlainValueFacts(value);
    var segment := ProtoKey + "=" + value;
    assert ';' !in segment;
    SplitNoSeparator(segment, ';');
    SegmentWithValue(ProtoKey, value);
    TrimTrimmed(ProtoKey);
    assert SegmentName(segment) == ProtoKey;
    assert Decode(RawSegmentValue(segment)) == Some(value);
    assert Segments(segment) == [segment];
    assert Fold(map[], [segment]) == Fold(Assign(map[], ProtoKey, value), []);
  }

  /** A `%` without two hexadecimal digits makes `decodeURIComponent`, and so the parse, fail. */
  lemma MalformedEscapeFails(name: string)
    requires IsCookieName(name)
    ensures Parse(Some(name + "=%")) == None
  {
    var segment := name + "=%";
    assert segment == name + "=" + "%";
    assert ';' !in segment;
    SplitNoSeparator(segment, ';');
    SegmentWithValue(name, "%");
    TrimTrimmed("%");
    assert RawSegmentValue(segment) == "%";
    assert Decode("%") == None;
    assert Segments(segment) == [segment];
    assert Fold(map[], [segment]) == None;
    assert |segment| > 0;
  }
}
