/** The Nominatim query string and the cache key derived from it
    (data/contact.py, lines 233-235, 251-254, 270-273 and 284-287). */
module QueryKey {
  import opened Wrappers
  import opened TextOps

  /** The unreserved characters of section 2.3 of RFC 3986: the only ones
      `urllib.parse.quote_plus` writes as they are. */
  predicate IsUnreserved(c: char) {
    ('A' <= c <= 'Z') || ('a' <= c <= 'z') || ('0' <= c <= '9')
    || c == '-' || c == '.' || c == '_' || c == '~'
  }

  /** Upper-case hexadecimal digit, as Python's percent-encoder writes it. */
  function HexDigit(n: nat): (d: char)
    requires n < 16
    ensures d !in {'+', ' ', '&', '%'}
  {
    if n < 10 then ('0' as int + n) as char else ('A' as int + n - 10) as char
  }

  predicate IsByte(b: int) { 0 <= b < 256 }

  /** UTF-8 encoding of one scalar value (section 3 of RFC 3629). */
  function Utf8(c: char): (bytes: seq<int>)
    ensures 1 <= |bytes| <= 4
    ensures forall i :: 0 <= i < |bytes| ==> IsByte(bytes[i])
  {
    var n := c as int;
    if n < 0x80 then [n]
    else if n < 0x800 then [0xC0 + n / 64, 0x80 + n % 64]
    else if n < 0x10000 then [0xE0 + n / 4096, 0x80 + (n / 64) % 64, 0x80 + n % 64]
    else [0xF0 + n / 262144, 0x80 + (n / 4096) % 64, 0x80 + (n / 64) % 64, 0x80 + n % 64]
  }

  /** Section 2.1 of RFC 3986: each byte written as `%` and two hex digits. */
  function PercentBytes(bytes: seq<int>): (e: string)
    requires forall i :: 0 <= i < |bytes| ==> IsByte(bytes[i])
    ensures |e| == 3 * |bytes|
    ensures forall i :: 0 <= i < |bytes| ==> e[3 * i] == '%'
    ensures forall x :: x in e ==> x !in {'+', ' ', '&'}
  {
    if bytes == [] then []
    else
      var b := bytes[0];
      assert IsByte(b) && 0 <= b / 16 < 16;
      var rest := PercentBytes(bytes[1..]);
      var e := ['%', HexDigit(b / 16), HexDigit(b % 16)] + rest;
      assert forall x :: x in e ==> x in ['%', HexDigit(b / 16), HexDigit(b % 16)] || x in rest;
      assert forall i :: 1 <= i < |bytes| ==> e[3 * i] == rest[3 * (i - 1)];
      e
  }

  /** How `quote_plus` writes one character: space as `+`, an unreserved
      character as itself, anything else percent-encoded. */
  function QuoteChar(c: char): (e: string)
    ensures |e| > 0
    ensures e[0] == '+' <==> c == ' '
    ensures c != ' ' ==> '+' !in e
    ensures '&' !in e && ' ' !in e
  {
    if c == ' ' then "+"
    else if IsUnreserved(c) then [c]
    else PercentBytes(Utf8(c))
  }

  /** `urllib.parse.quote_plus(s)` with no extra safe characters. */
  function QuotePlus(s: string): (r: string)
    ensures '&' !in r && ' ' !in r
    ensures r == [] <==> s == []
    ensures s != [] ==> (r[0] == '+' <==> s[0] == ' ')
  {
    if s == [] then [] else QuoteChar(s[0]) + QuotePlus(s[1..])
  }

  /** A query sent to Nominatim: the free text and, for the fallback
      candidates, the ISO country code. */
  datatype Query = Query(text: string, countryCode: Option<string>)

  /** `urlencode({'q': text, 'countrycodes': code, 'format': 'json'})`; the
      key-value pairs keep the order the source writes them in. */
  function Urlencode(q: Query): string {
    "q=" + QuotePlus(q.text) + CodeParam(q.countryCode) + "&format=json"
  }

  /** The `countrycodes` pair, present only for the fallback candidates. */
  function CodeParam(code: Option<string>): string {
    match code
    case None => ""
    case Some(cc) => "&countrycodes=" + QuotePlus(cc)
  }

  /** `re.sub(r"[\+]+", "+", k).strip("+")`. */
  function NormalizeKey(k: string): (r: string) {
    Strip(CollapseRuns(k, '+'), {'+'})
  }

  /** The string handed to `fetch_cache_or_web`, which is also the cache key. */
  function CacheKey(q: Query): string {
    NormalizeKey(Urlencode(q))
  }

  /** A normalised key never holds `++`. */
  lemma NormalizeKeyNoDoublePlus(k: string)
    ensures NoAdjacent(NormalizeKey(k), '+')
  {
    var c := CollapseRuns(k, '+');
    var r := NormalizeKey(k);
    CollapseRunsNoAdjacent(k, '+');
    if r != [] {
      var a := LeadCount(c, {'+'});
      var b := |c| - TrailCount(c, {'+'});
      assert r == c[a..b];
      forall i | 0 <= i < |r| - 1 ensures !(r[i] == '+' && r[i + 1] == '+') {
        assert r[i] == c[a + i] && r[i + 1] == c[a + i + 1];
      }
    }
  }

  /** Normalising a normalised key changes nothing. */
  lemma NormalizeKeyIdempotent(k: string)
    ensures NormalizeKey(NormalizeKey(k)) == NormalizeKey(k)
  {
    var r := NormalizeKey(k);
    NormalizeKeyNoDoublePlus(k);
    CollapseRunsFixpoint(r, '+');
    if r != [] {
      assert r[0] != '+' && r[|r| - 1] != '+';
      assert LeadCount(r, {'+'}) == 0;
      assert TrailCount(r, {'+'}) == 0;
      assert r[0..|r|] == r;
    }
  }

  /** A query string begins `q=` and ends `json`, so the `strip("+")` of the
      source never removes anything: the key is the query string with its
      `+` runs collapsed. */
  lemma CacheKeyOnlyCollapses(q: Query)
    ensures CacheKey(q) == CollapseRuns(Urlencode(q), '+')
  {
    var u := Urlencode(q);
    var c := CollapseRuns(u, '+');
    assert u[0] == 'q' && u[|u| - 1] == 'n';
    assert c[0] == 'q' && c[|c| - 1] == 'n';
    assert LeadCount(c, {'+'}) == 0;
    assert TrailCount(c, {'+'}) == 0;
    assert c[0..|c|] == c;
  }

  lemma QuotePlusCons(x: char, s: string)
    ensures QuotePlus([x] + s) == QuoteChar(x) + QuotePlus(s)
  {
    assert ([x] + s)[1..] == s;
  }

  /** Because a literal `+` is written `%2B`, collapsing `+` runs in the
      encoded text is collapsing space runs in the plain text. */
  lemma {:induction false} QuotePlusCollapse(t: string)
    ensures CollapseRuns(QuotePlus(t), '+') == QuotePlus(CollapseRuns(t, ' '))
    decreases |t|
  {
    if t != [] {
      QuotePlusCollapse(t[1..]);
      if t[0] != ' ' {
        CollapseStepOther(t);
      } else if |t| >= 2 && t[1] == ' ' {
        CollapseStepDouble(t);
      } else {
        CollapseStepSingle(t);
      }
    }
  }

  /** The step of `QuotePlusCollapse` for a first character other than a
      space: its encoding holds no `+` and passes through. */
  lemma CollapseStepOther(t: string)
    requires t != [] && t[0] != ' '
    requires CollapseRuns(QuotePlus(t[1..]), '+') == QuotePlus(CollapseRuns(t[1..], ' '))
    ensures CollapseRuns(QuotePlus(t), '+') == QuotePlus(CollapseRuns(t, ' '))
  {
    assert t == [t[0]] + t[1..];
    QuotePlusCons(t[0], t[1..]);
    QuotePlusCons(t[0], CollapseRuns(t[1..], ' '));
    CollapseRunsOther(t[0], t[1..], ' ');
    PassThrough(QuoteChar(t[0]), QuotePlus(t[1..]), QuotePlus(CollapseRuns(t[1..], ' ')));
  }

  /** A `+`-free text in front is left alone by the collapse. */
  lemma PassThrough(e: string, a: string, b: string)
    requires '+' !in e && CollapseRuns(a, '+') == b
    ensures CollapseRuns(e + a, '+') == e + b
  {
    CollapseRunsPrefix(e, a, '+');
  }

  /** The step for two leading spaces: both sides drop one of them. */
  lemma CollapseStepDouble(t: string)
    requires |t| >= 2 && t[0] == ' ' && t[1] == ' '
    requires CollapseRuns(QuotePlus(t[1..]), '+') == QuotePlus(CollapseRuns(t[1..], ' '))
    ensures CollapseRuns(QuotePlus(t), '+') == QuotePlus(CollapseRuns(t, ' '))
  {
    var rest := t[1..];
    QuoteSpace(t);
    QuoteSpace(rest);
    ConsFacts(QuotePlus(t), '+', QuotePlus(rest));
    ConsFacts(QuotePlus(rest), '+', QuotePlus(rest[1..]));
    CollapseHeadDouble(QuotePlus(t), '+');
    CollapseHeadDouble(t, ' ');
  }

  /** The step for one space followed by something else or nothing. */
  lemma CollapseStepSingle(t: string)
    requires t != [] && t[0] == ' ' && (|t| == 1 || t[1] != ' ')
    requires CollapseRuns(QuotePlus(t[1..]), '+') == QuotePlus(CollapseRuns(t[1..], ' '))
    ensures CollapseRuns(QuotePlus(t), '+') == QuotePlus(CollapseRuns(t, ' '))
  {
    var rest := t[1..];
    QuoteSpace(t);
    ConsFacts(QuotePlus(t), '+', QuotePlus(rest));
    CollapseHeadSingle(QuotePlus(t), '+');
    CollapseHeadSingle(t, ' ');
    QuoteSpaceCons(CollapseRuns(rest, ' '));
  }

  /** A leading space is written `+`. */
  lemma QuoteSpace(s: string)
    requires s != [] && s[0] == ' '
    ensures QuotePlus(s) == ['+'] + QuotePlus(s[1..])
  {
  }

  lemma QuoteSpaceCons(s: string)
    ensures QuotePlus([' '] + s) == ['+'] + QuotePlus(s)
  {
    QuotePlusCons(' ', s);
  }

  lemma ConsFacts(a: string, x: char, b: string)
    requires a == [x] + b
    ensures a[0] == x && a[1..] == b && (b != [] ==> a[1] == b[0])
  {
  }

  /** Of two leading `c`, the collapse drops the first. */
  lemma CollapseHeadDouble(s: string, c: char)
    requires |s| >= 2 && s[0] == c && s[1] == c
    ensures CollapseRuns(s, c) == CollapseRuns(s[1..], c)
  {
  }

  /** A lone leading `c` is kept. */
  lemma CollapseHeadSingle(s: string, c: char)
    requires s != [] && s[0] == c && (|s| == 1 || s[1] != c)
    ensures CollapseRuns(s, c) == [c] + CollapseRuns(s[1..], c)
  {
    if |s| == 1 {
      assert s[1..] == [];
    }
  }

  /** The query with every run of spaces in its text and code cut to one. */
  function CollapseSpaces(q: Query): Query {
    Query(CollapseRuns(q.text, ' '), CollapseCode(q.countryCode))
  }

  function CollapseCode(code: Option<string>): Option<string> {
    match code
    case None => None
    case Some(cc) => Some(CollapseRuns(cc, ' '))
  }

  lemma CodeParamCollapse(code: Option<string>)
    ensures CollapseRuns(CodeParam(code) + "&format=json", '+')
         == CodeParam(CollapseCode(code)) + "&format=json"
  {
    FormatParamCollapse();
    match code {
      case None =>
        assert CodeParam(code) + "&format=json" == "&format=json";
      case Some(cc) =>
        CountryParamCollapse(cc);
    }
  }

  lemma FormatParamCollapse()
    ensures CollapseRuns("&format=json", '+') == "&format=json"
  {
    CollapseRunsPrefix("&format=json", [], '+');
    assert "&format=json" + [] == "&format=json";
  }

  lemma CountryParamCollapse(cc: string)
    ensures CollapseRuns("&countrycodes=" + QuotePlus(cc) + "&format=json", '+')
         == "&countrycodes=" + QuotePlus(CollapseRuns(cc, ' ')) + "&format=json"
  {
    QuotePlusCollapse(cc);
    CollapseBetween("&countrycodes=", QuotePlus(cc), "&format=json");
  }

  /** Collapsing `+` runs in a text framed by two `+`-free texts, the
      second starting with a character other than `+`, works on the middle. */
  lemma CollapseBetween(p: string, x: string, f: string)
    requires '+' !in p && '+' !in f && f != []
    ensures CollapseRuns(p + x + f, '+') == p + CollapseRuns(x, '+') + f
  {
    assert f[0] in f;
    assert p + x + f == p + (x + f);
    CollapseRunsPrefix(p, x + f, '+');
    CollapseRunsSplice(x, f, '+');
    CollapseRunsPrefix(f, [], '+');
    assert f + [] == f;
    assert p + (CollapseRuns(x, '+') + f) == p + CollapseRuns(x, '+') + f;
  }

  /** The cache key is the plain query string of the space-collapsed query. */
  lemma CacheKeyIsCollapsedQuery(q: Query)
    ensures CacheKey(q) == Urlencode(CollapseSpaces(q))
  {
    var x := QuotePlus(q.text);
    var tail := CodeParam(q.countryCode) + "&format=json";
    CacheKeyOnlyCollapses(q);
    UrlencodeShape(q);
    ParamsStartWithAmp(q.countryCode);
    CollapseAfter("q=", x, tail);
    QuotePlusCollapse(q.text);
    CodeParamCollapse(q.countryCode);
    UrlencodeShape(CollapseSpaces(q));
  }

  /** The parameters after the text start with `&`. */
  lemma ParamsStartWithAmp(code: Option<string>)
    ensures (CodeParam(code) + "&format=json")[0] == '&'
  {
    match code {
      case None =>
      case Some(cc) => assert CodeParam(code)[0] == '&';
    }
  }

  lemma UrlencodeShape(q: Query)
    ensures Urlencode(q) == "q=" + QuotePlus(q.text) + (CodeParam(q.countryCode) + "&format=json")
  {
  }

  /** The general shape of the last step: a `+`-free prefix, then a middle,
      then a tail that starts with a character other than `+`. */
  lemma CollapseAfter(p: string, x: string, t: string)
    requires '+' !in p && t != [] && t[0] != '+'
    ensures CollapseRuns(p + x + t, '+') == p + CollapseRuns(x, '+') + CollapseRuns(t, '+')
  {
    assert p + x + t == p + (x + t);
    CollapseRunsPrefix(p, x + t, '+');
    CollapseRunsSplice(x, t, '+');
  }
}
