/** The ordered lookups tried for one cleaned segment of a hint
    (data/contact.py, lines 232-293). */
module Fallback {
  import opened Wrappers
  import opened TextOps
  import opened QueryKey

  /** One Nominatim search hit, a JSON object. */
  type Place = map<string, string>

  /** What `Nominatim.fetch_cache_or_web` answers for each cache key, cached
      or downloaded. A key that is missing stands for a lookup that raises. */
  type Cache = map<string, seq<Place>>

  /** `GeoSpellCheck.get_country_code_from_text`: a segment to its ISO
      country code and the segment with the country name taken out. */
  type Detector = string -> (string, string)

  /** How a query becomes the key handed to `fetch_cache_or_web`; the
      pipeline uses `QueryKey.CacheKey` (lines 233-235 and the three
      copies after them). The order of the lookups does not depend on it. */
  type KeyOf = Query -> string

  /** `nominatim.fetch_cache_or_web(key)[0]`: `None` where the source falls
      into its `except` branch (no answer, or an empty list). */
  function Fetch(cache: Cache, key: string): Option<Place> {
    if key in cache && |cache[key]| > 0 then Some(cache[key][0]) else None
  }

  /** Every component stripped of surrounding whitespace. */
  function StripAll(parts: seq<string>): seq<string> {
    seq(|parts|, i requires 0 <= i < |parts| => Strip(parts[i], Whitespace))
  }

  /** The components from `a` to the last, each stripped, joined by commas. */
  function SuffixJoin(parts: seq<string>, a: nat): string
    requires a < |parts|
    decreases |parts| - a
  {
    if a == |parts| - 1 then Strip(parts[a], Whitespace)
    else Strip(parts[a], Whitespace) + "," + SuffixJoin(parts, a + 1)
  }

  /** The suffix is the stripped components joined by commas. */
  lemma {:induction false} SuffixJoinIsJoin(parts: seq<string>, a: nat)
    requires a < |parts|
    ensures SuffixJoin(parts, a) == JoinWith(StripAll(parts[a..]), ",")
    decreases |parts| - a
  {
    if a < |parts| - 1 {
      SuffixJoinIsJoin(parts, a + 1);
      StripAllTail(parts[a..]);
      assert parts[a..][1..] == parts[a + 1..];
    }
  }

  /** Lines 262-267: the query of pass `i` of the suffix loop, made of the
      components `i + 1` to the last. */
  function Window(parts: seq<string>, i: nat): string
    requires i + 1 < |parts|
  {
    SuffixJoin(parts, i + 1)
  }

  /** Lines 262-267 as the source runs them: the last component, then the
      ones before it prepended one at a time. */
  method SuffixWindow(parts: seq<string>, i: nat) returns (q: string)
    requires i + 1 < |parts|
    ensures q == Window(parts, i)
  {
    var n := |parts|;
    q := Strip(parts[n - 1], Whitespace);
    var j := 2;
    while j < n - i
      invariant 2 <= j <= n - i
      invariant q == SuffixJoin(parts, n - j + 1)
    {
      q := Prepend(parts, n - j, q);
      j := j + 1;
    }
  }

  /** Line 267: `sub_elems[-j].strip() + "," + q`, component `a` put in
      front of the suffix after it. */
  method Prepend(parts: seq<string>, a: nat, q: string) returns (q': string)
    requires a + 1 < |parts| && q == SuffixJoin(parts, a + 1)
    ensures q' == SuffixJoin(parts, a)
  {
    q' := Strip(parts[a], Whitespace) + "," + q;
  }

  /** Lines 262-267: the components after the `i`-th, each stripped,
      joined by commas; the components hold no comma, so the window splits
      back into exactly those components. */
  lemma WindowComponents(filtered: string, i: nat)
    requires i + 1 < |SplitOn(filtered, ',')|
    ensures var parts := SplitOn(filtered, ',');
      SplitOn(Window(parts, i), ',') == StripAll(parts[i + 1..])
  {
    WindowSplitsBack(SplitOn(filtered, ','), i);
  }

  /** The components of the window of pass `i`: `n - 1 - i` of them, the
      last component last. */
  lemma WindowShape(parts: seq<string>, i: nat)
    requires i + 1 < |parts|
    requires forall k :: 0 <= k < |parts| ==> ',' !in parts[k]
    ensures |SplitOn(Window(parts, i), ',')| == |parts| - 1 - i
    ensures SplitOn(Window(parts, i), ',')[|parts| - 2 - i] == Strip(parts[|parts| - 1], Whitespace)
  {
    WindowSplitsBack(parts, i);
  }

  lemma WindowSplitsBack(parts: seq<string>, i: nat)
    requires i + 1 < |parts|
    requires forall k :: 0 <= k < |parts| ==> ',' !in parts[k]
    ensures SplitOn(Window(parts, i), ',') == StripAll(parts[i + 1..])
  {
    SuffixJoinIsJoin(parts, i + 1);
    StripAllNoSeparator(parts[i + 1..], ',');
    SplitOnJoin(StripAll(parts[i + 1..]), ',');
  }

  /** Stripping components adds no separator to them. */
  lemma StripAllNoSeparator(parts: seq<string>, sep: char)
    requires forall k :: 0 <= k < |parts| ==> sep !in parts[k]
    ensures forall k :: 0 <= k < |parts| ==> sep !in StripAll(parts)[k]
  {
    forall k | 0 <= k < |parts| ensures sep !in StripAll(parts)[k] {
      StripSpec(parts[k], Whitespace);
    }
  }

  /** Each pass of the suffix loop drops the first component of the window
      of the pass before. */
  lemma WindowsShrink(filtered: string, i: nat)
    requires i + 2 < |SplitOn(filtered, ',')|
    ensures var parts := SplitOn(filtered, ',');
      SplitOn(Window(parts, i), ',') == [Strip(parts[i + 1], Whitespace)] + SplitOn(Window(parts, i + 1), ',')
  {
    var parts := SplitOn(filtered, ',');
    WindowComponents(filtered, i);
    WindowComponents(filtered, i + 1);
    StripAllTail(parts[i + 1..]);
    assert parts[i + 1..][1..] == parts[i + 2..];
  }

  lemma StripAllTail(parts: seq<string>)
    requires |parts| >= 1
    ensures StripAll(parts) == [Strip(parts[0], Whitespace)] + StripAll(parts[1..])
  {
  }

  /** The keys of the fallback queries of lines 248-289, in order: the
      filtered text with the country code, every suffix window with the
      code, the first component with the code. */
  function WindowKeys(keyOf: KeyOf, code: string, parts: seq<string>): seq<string>
    requires |parts| >= 1
  {
    seq(|parts| - 1, i requires 0 <= i < |parts| - 1 => keyOf(Query(Window(parts, i), Some(code))))
  }

  function FallbackKeys(keyOf: KeyOf, code: string, filtered: string): seq<string> {
    var parts := SplitOn(filtered, ',');
    [keyOf(Query(filtered, Some(code)))] + WindowKeys(keyOf, code, parts)
    + [keyOf(Query(Strip(parts[0], Whitespace), Some(code)))]
  }

  /** All the keys a segment may look up, in order (lines 233-289): the
      segment alone without country restriction, then the fallbacks with
      the country detected in it. */
  function SegmentKeys(keyOf: KeyOf, detect: Detector, elem: string): seq<string> {
    [keyOf(Query(elem, None))] + FallbackKeys(keyOf, detect(elem).0, detect(elem).1)
  }

  /** The position of the first key that gets an answer, if any. */
  function FirstHit(cache: Cache, keys: seq<string>): (r: Option<nat>)
    ensures r.Some? ==> r.value < |keys|
  {
    if keys == [] then None
    else if Fetch(cache, keys[0]).Some? then Some(0)
    else
      match FirstHit(cache, keys[1..])
      case None => None
      case Some(k) => Some(k + 1)
  }

  /** The first hit is answered and every key before it is not; there is
      none exactly when no key is answered. */
  lemma {:induction false} FirstHitSpec(cache: Cache, keys: seq<string>)
    ensures var r := FirstHit(cache, keys);
      && (r.Some? ==> r.value < |keys| && Fetch(cache, keys[r.value]).Some?)
      && (r.Some? ==> forall j :: 0 <= j < r.value ==> Fetch(cache, keys[j]).None?)
      && (r.None? <==> forall j :: 0 <= j < |keys| ==> Fetch(cache, keys[j]).None?)
    decreases |keys|
  {
    if keys != [] && Fetch(cache, keys[0]).None? {
      FirstHitSpec(cache, keys[1..]);
      forall j | 1 <= j < |keys| ensures keys[j] == keys[1..][j - 1] {
      }
    }
  }

  lemma FirstHitAt(cache: Cache, keys: seq<string>, i: nat)
    requires i < |keys| && Fetch(cache, keys[i]).Some?
    requires forall j :: 0 <= j < i ==> Fetch(cache, keys[j]).None?
    ensures FirstHit(cache, keys) == Some(i)
    ensures Tries(cache, keys, Fetch(cache, keys[i]), keys[..i] + [keys[i]])
  {
    FirstHitSpec(cache, keys);
    assert keys[..i] + [keys[i]] == keys[..i + 1];
  }

  lemma FirstHitNone(cache: Cache, keys: seq<string>)
    requires forall j :: 0 <= j < |keys| ==> Fetch(cache, keys[j]).None?
    ensures Tries(cache, keys, None, keys[..|keys|])
  {
    FirstHitSpec(cache, keys);
  }

  /** The answer of the first key answered, if any. */
  function HitPlace(cache: Cache, keys: seq<string>): Option<Place> {
    match FirstHit(cache, keys)
    case None => None
    case Some(k) => Fetch(cache, keys[k])
  }

  /** How many keys are looked up: up to the first answered, or all. */
  function TriedCount(cache: Cache, keys: seq<string>): nat {
    match FirstHit(cache, keys)
    case None => |keys|
    case Some(k) => k + 1
  }

  /** `out` and `tried` are what trying `keys` in order, stopping at the
      first answer, gives: that answer, and the keys looked up. */
  predicate Tries(cache: Cache, keys: seq<string>, out: Option<Place>, tried: seq<string>) {
    && out == HitPlace(cache, keys)
    && TriedCount(cache, keys) <= |keys|
    && tried == keys[..TriedCount(cache, keys)]
  }

  /** Trying two lists one after the other is trying the second only when
      the first gets no answer. */
  lemma {:induction false} FirstHitAppend(cache: Cache, a: seq<string>, b: seq<string>)
    ensures FirstHit(cache, a + b)
            == if FirstHit(cache, a).Some? then FirstHit(cache, a)
               else if FirstHit(cache, b).Some? then Some(|a| + FirstHit(cache, b).value)
               else None
    decreases |a|
  {
    if a == [] {
      assert a + b == b;
    } else {
      FirstHitAppend(cache, a[1..], b);
      assert (a + b)[1..] == a[1..] + b;
    }
  }

  /** An answer in the first list ends the search there. */
  lemma TriesHead(cache: Cache, a: seq<string>, b: seq<string>, out: Option<Place>, tried: seq<string>)
    requires Tries(cache, a, out, tried) && out.Some?
    ensures Tries(cache, a + b, out, tried)
  {
    FirstHitAppend(cache, a, b);
    var k := FirstHit(cache, a).value;
    assert (a + b)[..k + 1] == a[..k + 1];
  }

  /** No answer in the first list: all of it is looked up, then the second. */
  lemma TriesTail(cache: Cache, a: seq<string>, b: seq<string>, out: Option<Place>, tried: seq<string>)
    requires FirstHit(cache, a).None?
    requires Tries(cache, b, out, tried)
    ensures Tries(cache, a + b, out, a + tried)
  {
    FirstHitAppend(cache, a, b);
    if FirstHit(cache, b).Some? {
      ShiftedHit(cache, a, b, FirstHit(cache, b).value);
    }
    PrefixOfAppend(a, b, TriedCount(cache, b));
  }

  lemma ShiftedHit(cache: Cache, a: seq<string>, b: seq<string>, k: nat)
    requires FirstHit(cache, b) == Some(k) && FirstHit(cache, a + b) == Some(|a| + k)
    ensures HitPlace(cache, a + b) == HitPlace(cache, b)
  {
    assert (a + b)[|a| + k] == b[k];
  }

  lemma PrefixOfAppend(a: seq<string>, b: seq<string>, m: nat)
    requires m <= |b|
    ensures (a + b)[..|a| + m] == a + b[..m]
  {
  }

  /** Lines 259-279 as the source runs them: pass `i` looks up window `i`
      and the loop is left by `break` on the first answer. */
  method TryWindows(cache: Cache, keyOf: KeyOf, code: string, parts: seq<string>)
    returns (out: Option<Place>, found: bool, tried: seq<string>)
    requires |parts| >= 1
    ensures Tries(cache, WindowKeys(keyOf, code, parts), out, tried)
    ensures found == out.Some?
  {
    ghost var keys := WindowKeys(keyOf, code, parts);
    out, found, tried := None, false, [];
    var i := 0;
    while i < |parts| - 1
      invariant 0 <= i <= |parts| - 1
      invariant !found && out.None?
      invariant tried == keys[..i]
      invariant forall j :: 0 <= j < i ==> Fetch(cache, keys[j]).None?
    {
      var q := SuffixWindow(parts, i);
      var key := keyOf(Query(q, Some(code)));
      assert key == keys[i];
      tried := tried + [key];
      out := Fetch(cache, key);
      if out.Some? {
        found := true;
        FirstHitAt(cache, keys, i);
        break;
      }
      i := i + 1;
    }
    if !found {
      FirstHitNone(cache, keys);
    }
  }

  /** Lines 246-293: the `except` branch of one segment, entered when the
      unrestricted query got no answer. */
  method TryFallbacks(cache: Cache, keyOf: KeyOf, code: string, filtered: string)
    returns (out: Option<Place>, tried: seq<string>)
    ensures Tries(cache, FallbackKeys(keyOf, code, filtered), out, tried)
  {
    var key := keyOf(Query(filtered, Some(code)));
    out := Fetch(cache, key);
    tried := [key];
    var parts := SplitOn(filtered, ',');
    var lastKey := keyOf(Query(Strip(parts[0], Whitespace), Some(code)));
    ghost var windows := WindowKeys(keyOf, code, parts);
    FallbackKeysSplit(keyOf, code, filtered);
    if out.Some? {
      TriesHead(cache, [key], windows + [lastKey], out, tried);
      return;
    }
    var found, more;
    out, found, more := TryWindows(cache, keyOf, code, parts);
    if found {
      TriesHead(cache, windows, [lastKey], out, more);
    } else {
      out := Fetch(cache, lastKey);
      FirstHitSpec(cache, windows);
      TriesTail(cache, windows, [lastKey], out, [lastKey]);
      more := more + [lastKey];
    }
    TriesTail(cache, [key], windows + [lastKey], out, more);
    tried := tried + more;
  }

  lemma FallbackKeysSplit(keyOf: KeyOf, code: string, filtered: string)
    ensures var parts := SplitOn(filtered, ',');
      FallbackKeys(keyOf, code, filtered)
      == [keyOf(Query(filtered, Some(code)))]
         + (WindowKeys(keyOf, code, parts) + [keyOf(Query(Strip(parts[0], Whitespace), Some(code)))])
  {
  }

  /** Lines 232-293 for one cleaned, non-empty segment: the unrestricted
      query, then the fallbacks with the detected country. `exact` is
      whether the unrestricted query was answered. */
  method ResolveSegment(cache: Cache, keyOf: KeyOf, detect: Detector, elem: string)
    returns (out: Option<Place>, exact: bool, tried: seq<string>)
    ensures Tries(cache, SegmentKeys(keyOf, detect, elem), out, tried)
    ensures exact <==> Fetch(cache, keyOf(Query(elem, None))).Some?
  {
    exact := false;
    var key := keyOf(Query(elem, None));
    out := Fetch(cache, key);
    tried := [key];
    var rest := FallbackKeys(keyOf, detect(elem).0, detect(elem).1);
    if out.Some? {
      exact := true;
      TriesHead(cache, [key], rest, out, tried);
      return;
    }
    var code, filtered := detect(elem).0, detect(elem).1;
    var more;
    out, more := TryFallbacks(cache, keyOf, code, filtered);
    TriesTail(cache, [key], rest, out, more);
    tried := tried + more;
  }

  /** A segment gets an answer exactly when some key it may look up is
      answered, and the answer is that of the first such key. */
  lemma HitPlaceSpec(cache: Cache, keys: seq<string>)
    ensures HitPlace(cache, keys).Some? <==> exists j :: 0 <= j < |keys| && Fetch(cache, keys[j]).Some?
    ensures forall j :: 0 <= j < |keys| && Fetch(cache, keys[j]).Some?
              && (forall i :: 0 <= i < j ==> Fetch(cache, keys[i]).None?)
              ==> HitPlace(cache, keys) == Fetch(cache, keys[j])
  {
    FirstHitSpec(cache, keys);
    forall j | 0 <= j < |keys| && Fetch(cache, keys[j]).Some?
              && (forall i :: 0 <= i < j ==> Fetch(cache, keys[i]).None?)
      ensures HitPlace(cache, keys) == Fetch(cache, keys[j])
    {
      var k := FirstHit(cache, keys).value;
      assert !(k < j) && !(j < k);
    }
  }

  /** A segment of `n` comma-separated filtered components may look up
      `n + 2` keys: the unrestricted query, the filtered text, `n - 1`
      windows and the first component; with one component, no window. */
  lemma SegmentKeysCount(keyOf: KeyOf, detect: Detector, elem: string)
    ensures |SegmentKeys(keyOf, detect, elem)| == |SplitOn(detect(elem).1, ',')| + 2
  {
  }
}
