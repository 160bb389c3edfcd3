/**
 * `setCookie`: writes one `Set-Cookie` header, the pair `name=value` with the
 * value URI-encoded, followed by the attributes the options ask for.
 */
module SetCookie {
  import opened Wrappers
  import opened UriComponent
  import opened Http
  import ParseCookies

  /** A JavaScript `Date`; only its `toUTCString()` text is used, which is taken as given. */
  datatype Date = Date(utcString: string)

  /** The options object; an absent property is None. */
  datatype CookieOptions = CookieOptions(
    domain: Option<string>,
    path: Option<string>,
    expires: Option<Date>,
    httpOnly: Option<bool>,
    secure: Option<bool>)

  /** The default `{}`. */
  const NoOptions := CookieOptions(None, None, None, None, None)

  /** A string option is truthy when present and not empty: `undefined` and `""` are falsy. */
  function TruthyText(s: Option<string>): (truthy: bool)
    ensures s.None? || s == Some("") ==> !truthy
    ensures s.Some? && s.value != "" ==> truthy
  {
    s.Some? && s.value != ""
  }

  /** A boolean option is truthy only when it is `true`: `undefined` and `false` are falsy. */
  function TruthyFlag(b: Option<bool>): (truthy: bool)
    ensures truthy <==> b.Some? && b.value
  {
    b == Some(true)
  }

  /** The attributes `setCookie` can write; there is no `SameSite`. */
  datatype Attribute = Domain(domain: string) | Path(path: string) | Expires(date: Date) | HttpOnly | Secure

  /** The text one attribute appends to the header: always `; ` and then the attribute's name. */
  function AttributeText(a: Attribute): (text: string)
    ensures "; " <= text && |text| >= 7
  {
    match a
    case Domain(d) => "; Domain=" + d
    case Path(p) => "; Path=" + p
    case Expires(date) => "; Expires=" + date.utcString
    case HttpOnly => "; HttpOnly"
    case Secure => "; Secure"
  }

  /** The position of an attribute in the fixed order in which they are written. */
  function Rank(a: Attribute): nat {
    match a
    case Domain(_) => 0
    case Path(_) => 1
    case Expires(_) => 2
    case HttpOnly => 3
    case Secure => 4
  }

  /**
   * The attributes an options object asks for, in the order they are written.
   * A `Date` is always truthy. There are at most five, and none exactly when
   * no option is truthy.
   */
  function Attributes(o: CookieOptions): (attrs: seq<Attribute>)
    ensures |attrs| <= 5
    ensures attrs == [] <==>
      !TruthyText(o.domain) && !TruthyText(o.path) && o.expires.None? && !TruthyFlag(o.httpOnly) && !TruthyFlag(o.secure)
  {
    (if TruthyText(o.domain) then [Domain(o.domain.value)] else [])
    + (if TruthyText(o.path) then [Path(o.path.value)] else [])
    + (if o.expires.Some? then [Expires(o.expires.value)] else [])
    + (if TruthyFlag(o.httpOnly) then [HttpOnly] else [])
    + (if TruthyFlag(o.secure) then [Secure] else [])
  }

  /** The texts of a list of attributes, one after the other. */
  function AttributesText(attrs: seq<Attribute>): string
    decreases |attrs|
  {
    if attrs == [] then "" else AttributeText(attrs[0]) + AttributesText(attrs[1..])
  }

  /** The value of the `Set-Cookie` header `setCookie` writes: it always begins with the encoded pair. */
  function SetCookieHeader(name: string, value: string, o: CookieOptions): (header: string)
    ensures ParseCookies.PairText(name, value) <= header
  {
    ParseCookies.PairText(name, value) + AttributesText(Attributes(o))
  }

  /** Writing the attributes of two lists is writing each in turn. */
  lemma {:induction false} AttributesTextAppend(a: seq<Attribute>, b: seq<Attribute>)
    ensures AttributesText(a + b) == AttributesText(a) + AttributesText(b)
    decreases |a|
  {
    if a == [] {
      assert a + b == b;
    } else {
      assert (a + b)[1..] == a[1..] + b;
      AttributesTextAppend(a[1..], b);
    }
  }

  /** One `cookie += text` step: appending an attribute's text extends the header's attribute list by that attribute. */
  lemma AttributeStep(h: string, pair: string, written: seq<Attribute>, a: Attribute)
    requires h == pair + AttributesText(written)
    ensures h + AttributeText(a) == pair + AttributesText(written + [a])
  {
    var w, t := AttributesText(written), AttributeText(a);
    assert (pair + w) + t == pair + (w + t);
    AttributesTextAppend(written, [a]);
    AttributesTextSingle(a);
  }

  /** The text of a single attribute list is that attribute's text. */
  lemma AttributesTextSingle(a: Attribute)
    ensures AttributesText([a]) == AttributeText(a)
  {
    assert [a][1..] == [];
  }

  /**
   * `setCookie(res, name, value, options)`: builds the header text step by
   * step and sets it on the response, replacing any earlier `Set-Cookie`.
   */
  method SetCookie(res: Response, name: string, value: string, options: CookieOptions)
    modifies res
    ensures res.headers == old(res.headers)["Set-Cookie" := SetCookieHeader(name, value, options)]
    ensures res.headerWrites == old(res.headerWrites) + [("Set-Cookie", SetCookieHeader(name, value, options))]
    ensures res.statusCode == old(res.statusCode) && res.ended == old(res.ended)
  {
    ghost var pair := ParseCookies.PairText(name, value);
    var cookie := name + "=" + Encode(value);
    ghost var written: seq<Attribute> := [];
    assert cookie == pair + AttributesText(written);

    if TruthyText(options.domain) {
      var a := Domain(options.domain.value);
      AttributeStep(cookie, pair, written, a);
      cookie := cookie + AttributeText(a);
      written := written + [a];
    }
    ghost var parts := if TruthyText(options.domain) then [Domain(options.domain.value)] else [];
    assert written == parts;

    if TruthyText(options.path) {
      var a := Path(options.path.value);
      AttributeStep(cookie, pair, written, a);
      cookie := cookie + AttributeText(a);
      written := written + [a];
    }
    parts := parts + (if TruthyText(options.path) then [Path(options.path.value)] else []);
    assert written == parts;

    if options.expires.Some? {
      var a := Expires(options.expires.value);
      AttributeStep(cookie, pair, written, a);
      cookie := cookie + AttributeText(a);
      written := written + [a];
    }
    parts := parts + (if options.expires.Some? then [Expires(options.expires.value)] else []);
    assert written == parts;

    if TruthyFlag(options.httpOnly) {
      var a := HttpOnly;
      AttributeStep(cookie, pair, written, a);
      cookie := cookie + AttributeText(a);
      written := written + [a];
    }
    parts := parts + (if TruthyFlag(options.httpOnly) then [HttpOnly] else []);
    assert written == parts;

    if TruthyFlag(options.secure) {
      var a := Secure;
      AttributeStep(cookie, pair, written, a);
      cookie := cookie + AttributeText(a);
      written := written + [a];
    }
    parts := parts + (if TruthyFlag(options.secure) then [Secure] else []);
    assert written == parts == Attributes(options);
    res.SetHeader("Set-Cookie", cookie);
  }

  // Properties of the header.

  /** The attributes come in the fixed order Domain, Path, Expires, HttpOnly, Secure, each at most once. */
  lemma AttributesOrdered(o: CookieOptions)
    ensures forall i, j :: 0 <= i < j < |Attributes(o)| ==> Rank(Attributes(o)[i]) < Rank(Attributes(o)[j])
  {
    var d := if TruthyText(o.domain) then [Domain(o.domain.value)] else [];
    var p := if TruthyText(o.path) then [Path(o.path.value)] else [];
    var e := if o.expires.Some? then [Expires(o.expires.value)] else [];
    var h := if TruthyFlag(o.httpOnly) then [HttpOnly] else [];
    var s := if TruthyFlag(o.secure) then [Secure] else [];
    var all := d + p + e + h + s;
    assert all == Attributes(o);
    forall i, j | 0 <= i < j < |all|
      ensures Rank(all[i]) < Rank(all[j])
    {
      // Each part holds at most one attribute, all of the part's rank, so ranks grow with the position.
      PartRank(d, p, e, h, s, i);
      PartRank(d, p, e, h, s, j);
    }
  }

  /** The rank of a position of the attribute list is the index of the part it falls in. */
  lemma PartRank(d: seq<Attribute>, p: seq<Attribute>, e: seq<Attribute>, h: seq<Attribute>, s: seq<Attribute>, k: int)
    requires forall a :: a in d ==> Rank(a) == 0
    requires forall a :: a in p ==> Rank(a) == 1
    requires forall a :: a in e ==> Rank(a) == 2
    requires forall a :: a in h ==> Rank(a) == 3
    requires forall a :: a in s ==> Rank(a) == 4
    requires 0 <= k < |d + p + e + h + s|
    ensures Rank((d + p + e + h + s)[k]) ==
      if k < |d| then 0 else if k < |d + p| then 1 else if k < |d + p + e| then 2 else if k < |d + p + e + h| then 3 else 4
  {
    var all := d + p + e + h + s;
    if k < |d| { assert all[k] == d[k]; }
    else if k < |d + p| { assert all[k] == p[k - |d|]; }
    else if k < |d + p + e| { assert all[k] == e[k - |d + p|]; }
    else if k < |d + p + e + h| { assert all[k] == h[k - |d + p + e|]; }
    else { assert all[k] == s[k - |d + p + e + h|]; }
  }

  /** The header carries a Domain attribute exactly when the `domain` option is a non-empty string, with that text. */
  lemma DomainPresence(o: CookieOptions, d: string)
    ensures Domain(d) in Attributes(o) <==> o.domain == Some(d) && d != ""
  {
  }

  /** The header carries a Path attribute exactly when the `path` option is a non-empty string, with that text. */
  lemma PathPresence(o: CookieOptions, p: string)
    ensures Path(p) in Attributes(o) <==> o.path == Some(p) && p != ""
  {
  }

  /** The header carries an Expires attribute exactly when an `expires` date is given, with that date. */
  lemma ExpiresPresence(o: CookieOptions, date: Date)
    ensures Expires(date) in Attributes(o) <==> o.expires == Some(date)
  {
  }

  /** The header carries the HttpOnly and Secure flags exactly when those options are `true`. */
  lemma FlagPresence(o: CookieOptions)
    ensures HttpOnly in Attributes(o) <==> o.httpOnly == Some(true)
    ensures Secure in Attributes(o) <==> o.secure == Some(true)
  {
  }

  /** Whatever the options, the header starts with the header written without options. */
  lemma HeaderStartsWithPair(name: string, value: string, o: CookieOptions)
    ensures SetCookieHeader(name, value, NoOptions) <= SetCookieHeader(name, value, o)
  {
    NoOptionsHeader(name, value);
    var pair := ParseCookies.PairText(name, value);
    assert SetCookieHeader(name, value, o)[..|pair|] == pair;
  }

  /** Without options the header is just the encoded pair. */
  lemma NoOptionsHeader(name: string, value: string)
    ensures SetCookieHeader(name, value, NoOptions) == name + "=" + Encode(value)
  {
    assert Attributes(NoOptions) == [];
  }

  /**
   * Regrouping of three strings. Stated on its own because inside the header
   * lemmas below the same fact is far costlier to prove.
   */
  lemma Associate(a: string, b: string, c: string)
    ensures (a + b) + c == a + (b + c)
  {
  }

  /** A header with one attribute is the pair followed by that attribute's text. */
  lemma SingleAttributeHeader(name: string, value: string, o: CookieOptions, a: Attribute)
    requires Attributes(o) == [a]
    ensures SetCookieHeader(name, value, o) == ParseCookies.PairText(name, value) + AttributeText(a)
  {
    AttributesTextSingle(a);
  }

  /** With only a non-empty `domain`: `name=value; Domain=d`. */
  lemma DomainOnlyHeader(name: string, value: string, d: string)
    requires d != ""
    ensures SetCookieHeader(name, value, NoOptions.(domain := Some(d))) == name + "=" + Encode(value) + "; Domain=" + d
  {
    SingleAttributeHeader(name, value, NoOptions.(domain := Some(d)), Domain(d));
    assert ParseCookies.PairText(name, value) + "; Domain=" + d == ParseCookies.PairText(name, value) + ("; Domain=" + d);
  }

  /** With only a non-empty `path`: `name=value; Path=p`. */
  lemma PathOnlyHeader(name: string, value: string, p: string)
    requires p != ""
    ensures SetCookieHeader(name, value, NoOptions.(path := Some(p))) == name + "=" + Encode(value) + "; Path=" + p
  {
    SingleAttributeHeader(name, value, NoOptions.(path := Some(p)), Path(p));
    assert ParseCookies.PairText(name, value) + "; Path=" + p == ParseCookies.PairText(name, value) + ("; Path=" + p);
  }

  /** With only `expires`: `name=value; Expires=<date.toUTCString()>`. */
  lemma ExpiresOnlyHeader(name: string, value: string, date: Date)
    ensures SetCookieHeader(name, value, NoOptions.(expires := Some(date))) == name + "=" + Encode(value) + "; Expires=" + date.utcString
  {
    SingleAttributeHeader(name, value, NoOptions.(expires := Some(date)), Expires(date));
    assert ParseCookies.PairText(name, value) + "; Expires=" + date.utcString == ParseCookies.PairText(name, value) + ("; Expires=" + date.utcString);
  }

  /** With only `httpOnly: true` or only `secure: true`, the bare flag follows the pair. */
  lemma FlagOnlyHeaders(name: string, value: string)
    ensures SetCookieHeader(name, value, NoOptions.(httpOnly := Some(true))) == name + "=" + Encode(value) + "; HttpOnly"
    ensures SetCookieHeader(name, value, NoOptions.(secure := Some(true))) == name + "=" + Encode(value) + "; Secure"
  {
    SingleAttributeHeader(name, value, NoOptions.(httpOnly := Some(true)), HttpOnly);
    SingleAttributeHeader(name, value, NoOptions.(secure := Some(true)), Secure);
  }

  /** An empty `domain` or `path`, and `false` flags, add nothing. */
  lemma FalsyOptionsIgnored(name: string, value: string, date: Option<Date>)
    ensures SetCookieHeader(name, value, CookieOptions(Some(""), Some(""), date, Some(false), Some(false)))
      == SetCookieHeader(name, value, NoOptions.(expires := date))
  {
    assert Attributes(CookieOptions(Some(""), Some(""), date, Some(false), Some(false))) == Attributes(NoOptions.(expires := date));
  }

  /** With every option set: the attributes in order Domain, Path, Expires, HttpOnly, Secure. */
  lemma AllOptionsHeader(name: string, value: string, d: string, p: string, date: Date)
    requires d != "" && p != ""
    ensures SetCookieHeader(name, value, CookieOptions(Some(d), Some(p), Some(date), Some(true), Some(true)))
      == name + "=" + Encode(value) + "; Domain=" + d + "; Path=" + p + "; Expires=" + date.utcString + "; HttpOnly; Secure"
  {
    AllAttributes(d, p, date);
    AllAttributesText(ParseCookies.PairText(name, value), d, p, date);
  }

  /** The text of all five attributes after a pair, written out step by step. */
  lemma AllAttributesText(pair: string, d: string, p: string, date: Date)
    ensures pair + AttributesText([Domain(d), Path(p), Expires(date)] + [HttpOnly, Secure])
      == pair + "; Domain=" + d + "; Path=" + p + "; Expires=" + date.utcString + "; HttpOnly; Secure"
  {
    var u := date.utcString;
    var l1, l2, l3 := [Domain(d)], [Domain(d), Path(p)], [Domain(d), Path(p), Expires(date)];
    var l4, l5 := l3 + [HttpOnly], l3 + [HttpOnly, Secure];
    var h1 := pair + "; Domain=" + d;
    var h2 := h1 + "; Path=" + p;
    var h3 := h2 + "; Expires=" + u;
    assert h1 == pair + AttributesText(l1) by {
      assert pair + AttributesText([]) == pair;
      AttributeStep(pair, pair, [], Domain(d));
      Associate(pair, "; Domain=", d);
    }
    assert h2 == pair + AttributesText(l2) by {
      AttributeStep(h1, pair, l1, Path(p));
      Associate(h1, "; Path=", p);
    }
    assert h3 == pair + AttributesText(l3) by {
      AttributeStep(h2, pair, l2, Expires(date));
      Associate(h2, "; Expires=", u);
    }
    assert h3 + "; HttpOnly" == pair + AttributesText(l4) by {
      AttributeStep(h3, pair, l3, HttpOnly);
    }
    assert h3 + "; HttpOnly; Secure" == pair + AttributesText(l5) by {
      AttributeStep(h3 + "; HttpOnly", pair, l4, Secure);
      assert l4 + [Secure] == l5;
      Associate(h3, "; HttpOnly", "; Secure");
    }
  }

  lemma AllAttributes(d: string, p: string, date: Date)
    requires d != "" && p != ""
    ensures Attributes(CookieOptions(Some(d), Some(p), Some(date), Some(true), Some(true)))
      == [Domain(d), Path(p), Expires(date)] + [HttpOnly, Secure]
  {
  }

  /**
   * A cookie set without options comes back from the `Cookie` header the
   * user agent returns, through `parseCookies`, as the same name and value.
   */
  lemma SetThenParse(name: string, value: string)
    requires ParseCookies.IsCookieName(name)
    ensures ParseCookies.Parse(Some(SetCookieHeader(name, value, NoOptions))) == Some(map[name := value])
  {
    NoOptionsHeader(name, value);
    ParseCookies.ParseCookieHeader([(name, value)]);
    assert ParseCookies.CookieHeader([(name, value)]) == SetCookieHeader(name, value, NoOptions);
    assert ParseCookies.PairsInto(map[], [(name, value)]) == ParseCookies.PairsInto(map[][name := value], []);
  }
}
