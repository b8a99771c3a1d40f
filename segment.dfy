/** Splitting a row's hint into one text per address and cleaning each
    (data/contact.py, lines 213-231). */
module Segment {
  import opened TextOps

  /** `unidecode.unidecode(s, errors="ignore")` on a text whose characters
      have no transliteration: ASCII characters stay and the others are
      dropped. On ASCII input it is the identity. */
  function Decode(s: string): (r: string) {
    if s == [] then [] else (if s[0] as int < 128 then [s[0]] else []) + Decode(s[1..])
  }

  lemma {:induction false} DecodeAscii(s: string)
    ensures forall i :: 0 <= i < |Decode(s)| ==> Decode(s)[i] as int < 128
    ensures (forall i :: 0 <= i < |s| ==> s[i] as int < 128) ==> Decode(s) == s
    decreases |s|
  {
    if s != [] {
      DecodeAscii(s[1..]);
      var h := if s[0] as int < 128 then [s[0]] else [];
      assert Decode(s) == h + Decode(s[1..]);
      forall i | 0 <= i < |Decode(s)| ensures Decode(s)[i] as int < 128 {
        if i >= |h| {
          assert Decode(s)[i] == Decode(s[1..])[i - |h|];
        }
      }
    }
  }

  /** Lines 216-218: double quotes, then `(c)`, then `@` are removed. */
  function RemoveMarks(s: string): string {
    RemoveAll(RemoveAll(RemoveAll(s, "\""), "(c)"), "@")
  }

  /** The removals take out `"` and `@` wherever they are and `(c)`
      wherever the scan of line 217 finds it, and nothing else: every other
      character stays, in order, and a text with none of the three is left
      as it is. */
  lemma RemoveMarksSpec(s: string)
    ensures '"' !in RemoveMarks(s) && '@' !in RemoveMarks(s)
    ensures forall x :: x in RemoveMarks(s) ==> x in s
    ensures RemoveMarks(s) == Without(RemoveAll(Without(s, '"'), "(c)"), '@')
    ensures '"' !in s && '@' !in s && Absent(s, "(c)") ==> RemoveMarks(s) == s
  {
    RemoveAllChar(s, '"');
    var t := RemoveAll(Without(s, '"'), "(c)");
    RemoveAllChar(t, '@');
    if '"' !in s && '@' !in s && Absent(s, "(c)") {
      WithoutAbsent(s, '"');
      RemoveAllAbsent(s, "(c)");
      WithoutAbsent(s, '@');
    }
  }

  const Upper: set<char> := set c: char | 'A' <= c <= 'Z'

  /** Length of the match of `[A-Z]+: ` at the start of `s`, 0 if none. The
      run of capitals is greedy and what follows it is not a capital, so
      backtracking never finds a shorter match. */
  function TagLength(s: string): (n: nat)
    ensures n <= |s|
  {
    var u := LeadCount(s, Upper);
    if u > 0 && u + 2 <= |s| && s[u] == ':' && s[u + 1] == ' ' then u + 2 else 0
  }

  /** `t` is a whole text the pattern `[A-Z]+: ` matches. */
  predicate IsTag(t: string) {
    |t| >= 3 && t[|t| - 2..] == ": " && forall k :: 0 <= k < |t| - 2 ==> t[k] in Upper
  }

  /** A match found in a prefix is a match of the whole text. */
  lemma TagLengthPrefix(x: string, m: nat)
    requires m <= |x|
    ensures TagLength(x[..m]) > 0 ==> TagLength(x) == TagLength(x[..m])
  {
    var p := x[..m];
    if TagLength(p) > 0 {
      var u := LeadCount(p, Upper);
      assert p[u] == x[u];
      assert forall k :: 0 <= k < u ==> p[k] == x[k];
      assert LeadCount(x, Upper) == u;
    }
  }

  /** `re.split(r"[A-Z]+: ", ...)` on a text of which `rest` is still to
      be scanned and `cur` is the piece read so far. Python tries the
      pattern at each position in turn and the pattern cannot match an
      empty text, so a match is taken wherever `TagLength` is positive. */
  function Pieces(rest: string, cur: string): (pieces: seq<string>)
    ensures |pieces| >= 1
    decreases |rest|
  {
    if rest == [] then [cur]
    else if TagLength(rest) > 0 then [cur] + Pieces(rest[TagLength(rest)..], [])
    else Pieces(rest[1..], cur + [rest[0]])
  }

  /** The tags the same scan removes, in order. */
  function Tags(rest: string): seq<string>
    decreases |rest|
  {
    if rest == [] then []
    else if TagLength(rest) > 0 then [rest[..TagLength(rest)]] + Tags(rest[TagLength(rest)..])
    else Tags(rest[1..])
  }

  /** Line 221: the hint split on every `UPPERCASE: ` tag. */
  function SplitTags(s: string): seq<string> {
    Pieces(s, [])
  }

  /** The pieces put back together with the tags between them. */
  function Interleave(pieces: seq<string>, tags: seq<string>): string
    requires |pieces| == |tags| + 1
  {
    if tags == [] then pieces[0]
    else pieces[0] + tags[0] + Interleave(pieces[1..], tags[1..])
  }

  /** No tag starts anywhere in `x`. */
  predicate TagFree(x: string) {
    forall j :: 0 <= j <= |x| ==> TagLength(x[j..]) == 0
  }

  /** There is one more piece than tags, and the pieces and the tags
      interleave back to the scanned text. */
  lemma {:induction false} PiecesInterleave(rest: string, cur: string)
    ensures |Pieces(rest, cur)| == |Tags(rest)| + 1
    ensures Interleave(Pieces(rest, cur), Tags(rest)) == cur + rest
    decreases |rest|
  {
    if rest == [] {
      AppendEmpty(cur, rest);
    } else if TagLength(rest) > 0 {
      PiecesInterleave(rest[TagLength(rest)..], []);
      SplitAtTag(rest, cur);
      InterleaveCons(Pieces(rest, cur), Tags(rest), cur, rest, TagLength(rest),
                     Pieces(rest[TagLength(rest)..], []), Tags(rest[TagLength(rest)..]));
    } else {
      PiecesInterleave(rest[1..], cur + [rest[0]]);
      SplitPastChar(rest, cur);
      ShiftOne(cur, rest);
    }
  }

  lemma AppendEmpty(cur: string, rest: string)
    requires rest == []
    ensures cur + rest == cur
  {
  }

  lemma ShiftOne(cur: string, rest: string)
    requires rest != []
    ensures cur + [rest[0]] + rest[1..] == cur + rest
  {
  }

  /** One step of the scan where a tag starts. */
  lemma SplitAtTag(rest: string, cur: string)
    requires rest != [] && TagLength(rest) > 0
    ensures Pieces(rest, cur) == [cur] + Pieces(rest[TagLength(rest)..], [])
    ensures Tags(rest) == [rest[..TagLength(rest)]] + Tags(rest[TagLength(rest)..])
  {
  }

  /** One step of the scan where no tag starts. */
  lemma SplitPastChar(rest: string, cur: string)
    requires rest != [] && TagLength(rest) == 0
    ensures Pieces(rest, cur) == Pieces(rest[1..], cur + [rest[0]])
    ensures Tags(rest) == Tags(rest[1..])
  {
  }

  lemma InterleaveCons(ps': seq<string>, ts': seq<string>, p: string, whole: string, k: nat,
                        ps: seq<string>, ts: seq<string>)
    requires k <= |whole| && ps' == [p] + ps && ts' == [whole[..k]] + ts
    requires |ps| == |ts| + 1 && Interleave(ps, ts) == [] + whole[k..]
    ensures |ps'| == |ts'| + 1 && Interleave(ps', ts') == p + whole
  {
    assert ps'[1..] == ps && ts'[1..] == ts;
    assert [] + whole[k..] == whole[k..];
    assert whole[..k] + whole[k..] == whole;
  }

  /** Every text the split removes matches `[A-Z]+: `. */
  lemma {:induction false} TagsAreTags(rest: string)
    ensures forall i :: 0 <= i < |Tags(rest)| ==> IsTag(Tags(rest)[i])
    decreases |rest|
  {
    if rest != [] {
      var t := TagLength(rest);
      if t > 0 {
        TagsAreTags(rest[t..]);
        TagIsTag(rest);
        var ts := Tags(rest);
        assert ts == [rest[..t]] + Tags(rest[t..]);
        forall i | 0 <= i < |ts| ensures IsTag(ts[i]) {
          if i > 0 {
            assert ts[i] == Tags(rest[t..])[i - 1];
          }
        }
      } else {
        TagsAreTags(rest[1..]);
      }
    }
  }

  /** No piece of the split holds a tag, provided no tag starts inside the
      piece read so far. */
  lemma {:induction false} PiecesTagFree(rest: string, cur: string)
    requires forall j :: 0 <= j < |cur| ==> TagLength((cur + rest)[j..]) == 0
    ensures forall i :: 0 <= i < |Pieces(rest, cur)| ==> TagFree(Pieces(rest, cur)[i])
    decreases |rest|
  {
    var ps := Pieces(rest, cur);
    if rest == [] {
      assert cur + rest == cur;
      CurTagFree(cur, rest);
    } else {
      var t := TagLength(rest);
      if t > 0 {
        var tail := rest[t..];
        PiecesTagFree(tail, []);
        CurTagFree(cur, rest);
        assert ps == [cur] + Pieces(tail, []);
        forall i | 0 <= i < |ps| ensures TagFree(ps[i]) {
          if i > 0 {
            assert ps[i] == Pieces(tail, [])[i - 1];
          }
        }
      } else {
        var cur' := cur + [rest[0]];
        assert cur' + rest[1..] == cur + rest;
        assert (cur + rest)[|cur|..] == rest;
        PiecesTagFree(rest[1..], cur');
      }
    }
  }

  lemma TagIsTag(x: string)
    requires TagLength(x) > 0
    ensures IsTag(x[..TagLength(x)])
  {
    var t := TagLength(x);
    assert x[..t][t - 2..] == [x[t - 2], x[t - 1]];
  }

  /** A piece in which no tag of the whole text starts is tag free. */
  lemma CurTagFree(cur: string, rest: string)
    requires forall j :: 0 <= j < |cur| ==> TagLength((cur + rest)[j..]) == 0
    ensures TagFree(cur)
  {
    forall j | 0 <= j <= |cur| ensures TagLength(cur[j..]) == 0 {
      if j < |cur| {
        NoTagInPrefix(cur, rest, j);
      }
    }
  }

  lemma NoTagInPrefix(cur: string, rest: string, j: nat)
    requires j < |cur| && TagLength((cur + rest)[j..]) == 0
    ensures TagLength(cur[j..]) == 0
  {
    var w := cur + rest;
    assert cur[j..] == w[j..][..|cur| - j];
    TagLengthPrefix(w[j..], |cur| - j);
  }

  /** The split of line 221 decomposes the text: pieces free of tags,
      separated by tags, that put together give the text back. Each tag is
      taken where its match starts leftmost, so no piece before a tag ends
      with a capital the tag could have begun with. */
  lemma SplitTagsSpec(s: string)
    ensures |SplitTags(s)| == |Tags(s)| + 1
    ensures forall i :: 0 <= i < |SplitTags(s)| ==> TagFree(SplitTags(s)[i])
    ensures forall i :: 0 <= i < |Tags(s)| ==> IsTag(Tags(s)[i])
    ensures Interleave(SplitTags(s), Tags(s)) == s
    ensures forall i :: 0 <= i < |Tags(s)| ==> EndsBeforeTag(SplitTags(s)[i])
  {
    PiecesInterleave(s, []);
    assert [] + s == s;
    PiecesTagFree(s, []);
    TagsAreTags(s);
    PiecesLeftmost(s, []);
  }

  /** `p` is empty or does not end with a capital. */
  predicate EndsBeforeTag(p: string) {
    p == [] || !IsUpper(p[|p| - 1])
  }

  /** Every piece the scan closes at a tag is empty or ends with no
      capital, provided the last character read so far starts no tag. */
  lemma {:induction false} PiecesLeftmost(rest: string, cur: string)
    requires cur == [] || TagLength([cur[|cur| - 1]] + rest) == 0
    ensures var ps := Pieces(rest, cur);
      forall i :: 0 <= i < |ps| - 1 ==> EndsBeforeTag(ps[i])
    decreases |rest|
  {
    if rest != [] {
      var t := TagLength(rest);
      if t > 0 {
        PiecesLeftmost(rest[t..], []);
        if cur != [] {
          UpperExtendsTag(cur[|cur| - 1], rest);
        }
        var ps := Pieces(rest, cur);
        assert ps == [cur] + Pieces(rest[t..], []);
        forall i | 0 <= i < |ps| - 1 ensures EndsBeforeTag(ps[i]) {
          if i > 0 {
            assert ps[i] == Pieces(rest[t..], [])[i - 1];
          }
        }
      } else {
        var cur' := cur + [rest[0]];
        assert [cur'[|cur'| - 1]] + rest[1..] == rest;
        SplitPastChar(rest, cur);
        PiecesLeftmost(rest[1..], cur');
      }
    }
  }

  /** A capital in front of a tag starts a longer tag. */
  lemma UpperExtendsTag(x: char, rest: string)
    ensures IsUpper(x) && TagLength(rest) > 0 ==> TagLength([x] + rest) > 0
  {
    if IsUpper(x) && TagLength(rest) > 0 {
      var s := [x] + rest;
      assert s[1..] == rest && x in Upper;
      var u := LeadCount(rest, Upper);
      assert LeadCount(s, Upper) == 1 + u;
      assert s[1 + u] == rest[u] && s[2 + u] == rest[u + 1];
    }
  }

  /** The characters `str.strip(" \n\r.;,:")` removes (line 226). */
  const EdgeChars: set<char> := {' ', '\n', '\r', '.', ';', ',', ':'}

  /** Length of one repetition of `\s?\,` at the start of `s`, or 0. */
  function UnitLength(s: string, blank: set<char>): nat {
    if s != [] && s[0] == ',' then 1
    else if |s| >= 2 && s[0] in blank && s[1] == ',' then 2
    else 0
  }

  /** Length of the greedy match of `(\s?\,)+` at the start of `s`, or 0. */
  function RunLength(s: string, blank: set<char>): (n: nat)
    ensures n <= |s|
    ensures n > 0 ==> s[n - 1] == ','
    ensures n == 0 <==> UnitLength(s, blank) == 0
    decreases |s|
  {
    var u := UnitLength(s, blank);
    if u == 0 then 0 else u + RunLength(s[u..], blank)
  }

  /** Line 229: every match of `(\s?\,)+` becomes one comma. */
  function CollapseCommas(s: string, blank: set<char>): (r: string)
    ensures s != [] ==> r != [] && (r[0] == ',' || r[0] == s[0])
    decreases |s|
  {
    if s == [] then []
    else
      var n := RunLength(s, blank);
      if n > 0 then [','] + CollapseCommas(s[n..], blank)
      else [s[0]] + CollapseCommas(s[1..], blank)
  }

  /** The collapse brings in no character the text does not hold. */
  lemma {:induction false} CollapseCommasChars(s: string, blank: set<char>)
    ensures forall x :: x in CollapseCommas(s, blank) ==> x in s
    decreases |s|
  {
    if s != [] {
      var n := RunLength(s, blank);
      if n > 0 {
        CollapseCommasChars(s[n..], blank);
        assert s[n - 1] in s;
        assert forall x :: x in s[n..] ==> x in s;
      } else {
        CollapseCommasChars(s[1..], blank);
        assert forall x :: x in s[1..] ==> x in s;
      }
    }
  }

  /** No two commas are adjacent. */
  predicate NoDoubleComma(s: string) {
    forall i :: 0 <= i < |s| - 1 ==> !(s[i] == ',' && s[i + 1] == ',')
  }

  /** The collapse leaves no `,,`. */
  lemma {:induction false} CollapseCommasNoDouble(s: string, blank: set<char>)
    ensures NoDoubleComma(CollapseCommas(s, blank))
    decreases |s|
  {
    if s != [] {
      var n := RunLength(s, blank);
      if n > 0 {
        var t := CollapseCommas(s[n..], blank);
        CollapseCommasNoDouble(s[n..], blank);
        if t != [] {
          RunLengthMaximal(s, blank);
          assert s[n..][0] != ',';
        }
        NoDoubleCons(',', t);
      } else {
        CollapseCommasNoDouble(s[1..], blank);
        NoDoubleCons(s[0], CollapseCommas(s[1..], blank));
      }
    }
  }

  /** A character put in front keeps the text free of `,,` unless it is a
      comma put before a comma. */
  lemma NoDoubleCons(c: char, t: string)
    requires NoDoubleComma(t)
    requires c == ',' && t != [] ==> t[0] != ','
    ensures NoDoubleComma([c] + t)
  {
    var r := [c] + t;
    forall i | 0 <= i < |r| - 1 ensures !(r[i] == ',' && r[i + 1] == ',') {
      if i > 0 {
        assert r[i] == t[i - 1] && r[i + 1] == t[i];
      }
    }
  }

  /** A match cannot be extended: the text after it does not start another. */
  lemma RunLengthMaximal(s: string, blank: set<char>)
    requires RunLength(s, blank) > 0
    ensures RunLength(s[RunLength(s, blank)..], blank) == 0
    decreases |s|
  {
    var u := UnitLength(s, blank);
    if RunLength(s[u..], blank) > 0 {
      RunLengthMaximal(s[u..], blank);
      assert s[u..][RunLength(s[u..], blank)..] == s[RunLength(s, blank)..];
    } else {
      assert s[u..] == s[RunLength(s, blank)..];
    }
  }

  /** Each maximal match of `(\s?\,)+` becomes exactly one comma and the
      text on either side of it is rewritten on its own: `m` is made of
      `\s?\,` units, `b` starts no further unit, and no unit spans the
      end of `a` and the start of `m` (so `a` may end in a blank when `m`
      starts with one, as in `"a  ,b"`). */
  lemma CommaRunIsOneComma(a: string, m: string, b: string, blank: set<char>)
    requires m != [] && RunLength(m, blank) == |m|
    requires a == [] || (a[|a| - 1] != ',' && (a[|a| - 1] in blank ==> m[0] != ','))
    requires RunLength(b, blank) == 0
    ensures CollapseCommas(a + m + b, blank) == CollapseCommas(a, blank) + "," + CollapseCommas(b, blank)
  {
    NoUnitBeforeRun(a, m, b, blank);
    CollapseCommasSpliceAfter(a, m + b, blank);
    CollapseWholeRun(m, b, blank);
    CollapseRegroup(a, m, b, blank);
    CommaBetween(CollapseCommas(a + m + b, blank), CollapseCommas(a, blank),
                 CollapseCommas(m + b, blank), CollapseCommas(b, blank));
  }

  lemma NoUnitBeforeRun(a: string, m: string, b: string, blank: set<char>)
    requires m != []
    requires a == [] || (a[|a| - 1] != ',' && (a[|a| - 1] in blank ==> m[0] != ','))
    ensures NoUnitAcross(a, m + b, blank)
  {
    assert (m + b)[0] == m[0];
  }

  lemma CollapseRegroup(a: string, m: string, b: string, blank: set<char>)
    ensures CollapseCommas(a + m + b, blank) == CollapseCommas(a + (m + b), blank)
  {
    assert a + m + b == a + (m + b);
  }

  lemma CommaBetween(x: string, p: string, q: string, r: string)
    requires x == p + q && q == [','] + r
    ensures x == p + "," + r
  {
  }

  /** A text of units followed by one that starts none collapses to a
      comma and the collapse of the rest. */
  lemma CollapseWholeRun(m: string, b: string, blank: set<char>)
    requires m != [] && RunLength(m, blank) == |m|
    requires RunLength(b, blank) == 0
    ensures CollapseCommas(m + b, blank) == [','] + CollapseCommas(b, blank)
  {
    RunLengthWhole(m, b, blank);
    CollapseCommasStep(m + b, blank);
    assert (m + b)[|m|..] == b;
  }

  /** No `\s?\,` unit starts in `a` and ends in `t`. */
  predicate NoUnitAcross(a: string, t: string, blank: set<char>) {
    a == [] || (a[|a| - 1] != ',' && (a[|a| - 1] in blank ==> t == [] || t[0] != ','))
  }

  /** The collapse works piecewise where no unit crosses the cut. */
  lemma {:induction false} CollapseCommasSpliceAfter(a: string, t: string, blank: set<char>)
    requires NoUnitAcross(a, t, blank)
    ensures CollapseCommas(a + t, blank) == CollapseCommas(a, blank) + CollapseCommas(t, blank)
    decreases |a|
  {
    if a == [] {
      assert a + t == t && CollapseCommas(a, blank) == [];
    } else {
      var k := StepLength(a, blank);
      NoUnitAcrossTail(a, t, k, blank);
      CollapseCommasSpliceAfter(a[k..], t, blank);
      SpliceStep(a, t, blank);
    }
  }

  /** One step of the splice: the first step over `a + t` is the first
      step over `a`, and the rest follows from the splice of what is left. */
  lemma SpliceStep(a: string, t: string, blank: set<char>)
    requires a != [] && NoUnitAcross(a, t, blank)
    requires CollapseCommas(a[StepLength(a, blank)..] + t, blank)
             == CollapseCommas(a[StepLength(a, blank)..], blank) + CollapseCommas(t, blank)
    ensures CollapseCommas(a + t, blank) == CollapseCommas(a, blank) + CollapseCommas(t, blank)
  {
    var s := a + t;
    RunLengthPrefix(a, t, blank);
    var k := StepLength(a, blank);
    var h := if RunLength(a, blank) > 0 then [','] else [a[0]];
    AppendDrop(a, t, k);
    CollapseCommasStep(s, blank);
    CollapseCommasStep(a, blank);
    ConcatStep(h, CollapseCommas(a[k..] + t, blank), CollapseCommas(a[k..], blank),
               CollapseCommas(t, blank), CollapseCommas(s, blank), CollapseCommas(a, blank));
  }

  lemma AppendDrop(a: string, t: string, k: nat)
    requires 0 < k <= |a|
    ensures (a + t)[k..] == a[k..] + t && (a + t)[0] == a[0]
  {
  }

  /** How far one step of the collapse moves: over a whole match, or one
      character. */
  function StepLength(s: string, blank: set<char>): (k: nat)
    requires s != []
    ensures 0 < k <= |s|
  {
    var n := RunLength(s, blank);
    if n > 0 then n else 1
  }

  /** One step of the collapse: a comma for a match, otherwise the first
      character, then the collapse of what follows. */
  lemma CollapseCommasStep(s: string, blank: set<char>)
    requires s != []
    ensures CollapseCommas(s, blank)
            == (if RunLength(s, blank) > 0 then [','] else [s[0]])
               + CollapseCommas(s[StepLength(s, blank)..], blank)
  {
  }

  /** A suffix of `a` keeps the condition. */
  lemma NoUnitAcrossTail(a: string, t: string, k: nat, blank: set<char>)
    requires NoUnitAcross(a, t, blank) && k <= |a|
    ensures NoUnitAcross(a[k..], t, blank)
  {
    if k < |a| {
      assert a[k..][|a| - k - 1] == a[|a| - 1];
    }
  }

  /** A match starting inside `a` ends inside it. */
  lemma {:induction false} RunLengthPrefix(a: string, t: string, blank: set<char>)
    requires a != [] && NoUnitAcross(a, t, blank)
    ensures RunLength(a + t, blank) == RunLength(a, blank) < |a|
    decreases |a|
  {
    UnitLengthPrefix(a, t, blank);
    var u := UnitLength(a, blank);
    if u > 0 {
      assert (a + t)[u..] == a[u..] + t;
      NoUnitAcrossTail(a, t, u, blank);
      RunLengthPrefix(a[u..], t, blank);
    }
  }

  lemma UnitLengthPrefix(a: string, t: string, blank: set<char>)
    requires a != [] && NoUnitAcross(a, t, blank)
    ensures UnitLength(a + t, blank) == UnitLength(a, blank) < |a|
  {
    assert (a + t)[0] == a[0];
    if |a| >= 2 {
      assert (a + t)[1] == a[1];
    } else if t != [] {
      assert (a + t)[1] == t[0];
    }
  }

  /** A text made of units followed by one that starts none is matched
      exactly up to its end. */
  lemma {:induction false} RunLengthWhole(m: string, b: string, blank: set<char>)
    requires m != [] && RunLength(m, blank) == |m|
    requires RunLength(b, blank) == 0
    ensures RunLength(m + b, blank) == |m|
    decreases |m|
  {
    var u := UnitLength(m, blank);
    assert (m + b)[0] == m[0];
    if |m| >= 2 {
      assert (m + b)[1] == m[1];
    }
    assert (m + b)[u..] == m[u..] + b;
    if u < |m| {
      RunLengthWhole(m[u..], b, blank);
    } else {
      assert m[u..] + b == b;
    }
  }

  /** The collapse of a text starts with a comma only when the text starts
      a match. */
  lemma CollapseCommasHead(s: string, blank: set<char>)
    requires s != [] && CollapseCommas(s, blank)[0] == ','
    ensures s[0] == ',' || RunLength(s, blank) > 0
  {
  }

  /** No comma follows a comma or a whitespace character. */
  predicate CommasTight(s: string, blank: set<char>) {
    forall i :: 0 <= i < |s| - 1 ==> !(s[i + 1] == ',' && (s[i] == ',' || s[i] in blank))
  }

  /** A text whose commas are tight is left as it is. */
  lemma {:induction false} CollapseCommasFixpoint(s: string, blank: set<char>)
    requires CommasTight(s, blank)
    ensures CollapseCommas(s, blank) == s
    decreases |s|
  {
    if s != [] {
      assert CommasTight(s[1..], blank) by {
        forall i | 0 <= i < |s[1..]| - 1
          ensures !(s[1..][i + 1] == ',' && (s[1..][i] == ',' || s[1..][i] in blank))
        {
          assert s[1..][i] == s[i + 1] && s[1..][i + 1] == s[i + 2];
        }
      }
      CollapseCommasFixpoint(s[1..], blank);
      if s[0] == ',' {
        assert |s| == 1 || s[1] != ',';
        assert UnitLength(s[1..], blank) == 0;
        assert RunLength(s, blank) == 1;
      } else {
        assert UnitLength(s, blank) == 0;
      }
    }
  }

  /** The collapse is not idempotent: `\s?` takes at most one whitespace
      character before each comma, so of two spaces before a comma one
      survives and a second collapse removes it. */
  lemma CollapseCommasNotIdempotent()
    ensures CollapseCommas("a  ,b", Whitespace) == "a ,b"
    ensures CollapseCommas("a ,b", Whitespace) == "a,b"
  {
    var s := "a  ,b";
    assert UnitLength(s, Whitespace) == 0 && RunLength(s, Whitespace) == 0;
    assert s[1..] == "  ,b";
    assert UnitLength("  ,b", Whitespace) == 0 && RunLength("  ,b", Whitespace) == 0;
    assert "  ,b"[1..] == " ,b";
    assert UnitLength(" ,b", Whitespace) == 2;
    assert " ,b"[2..] == "b";
    assert UnitLength("b", Whitespace) == 0;
    assert RunLength(" ,b", Whitespace) == 2;
    assert CollapseCommas(" ,b", Whitespace) == ",b";
    assert "a ,b"[1..] == " ,b";
  }

  /** A text that does not end in a comma keeps its last character. */
  lemma {:induction false} CollapseCommasLast(s: string, blank: set<char>)
    requires s != [] && s[|s| - 1] != ','
    ensures CollapseCommas(s, blank) != [] && CollapseCommas(s, blank)[|CollapseCommas(s, blank)| - 1] == s[|s| - 1]
    decreases |s|
  {
    var n := RunLength(s, blank);
    assert n > 0 ==> s[n - 1] == ',' && n < |s|;
    var m := if n > 0 then n else 1;
    var head := if n > 0 then ',' else s[0];
    assert CollapseCommas(s, blank) == [head] + CollapseCommas(s[m..], blank);
    if m < |s| {
      LastOfDrop(s, m);
      CollapseCommasLast(s[m..], blank);
      LastOfCons(head, CollapseCommas(s[m..], blank));
    } else {
      assert m == |s|;
    }
  }

  lemma LastOfDrop(s: string, m: nat)
    requires m < |s|
    ensures s[m..] != [] && s[m..][|s[m..]| - 1] == s[|s| - 1]
  {
  }

  lemma LastOfCons(c: char, t: string)
    requires t != []
    ensures ([c] + t)[|[c] + t| - 1] == t[|t| - 1]
  {
  }

  /** Lines 226 and 229: edge characters stripped, lower-cased, comma runs
      collapsed. */
  function CleanSegment(piece: string): string {
    CollapseCommas(Lower(Strip(piece, EdgeChars)), Whitespace)
  }

  /** A cleaned segment is empty exactly when the piece held only edge
      characters; otherwise it is lower-case, has no `,,`, ends in a
      character that is not an edge character and starts with one only if
      that one is a comma. */
  lemma CleanSegmentSpec(piece: string)
    ensures var e := CleanSegment(piece);
      && (e == [] <==> forall k :: 0 <= k < |piece| ==> piece[k] in EdgeChars)
      && (forall i :: 0 <= i < |e| ==> !IsUpper(e[i]))
      && NoDoubleComma(e)
      && (e != [] ==> e[|e| - 1] !in EdgeChars && (e[0] == ',' || e[0] !in EdgeChars))
  {
    var st := Strip(piece, EdgeChars);
    StripSpec(piece, EdgeChars);
    var lo := Lower(st);
    LowerSpec(st);
    assert CollapseCommas(lo, Whitespace) == [] <==> st == [];
    CollapseCommasNoDouble(lo, Whitespace);
    CleanSegmentLower(lo);
    if st != [] {
      CleanSegmentEnds(st);
    }
  }

  lemma CleanSegmentLower(lo: string)
    requires forall i :: 0 <= i < |lo| ==> !IsUpper(lo[i])
    ensures forall i :: 0 <= i < |CollapseCommas(lo, Whitespace)| ==> !IsUpper(CollapseCommas(lo, Whitespace)[i])
  {
    var e := CollapseCommas(lo, Whitespace);
    CollapseCommasChars(lo, Whitespace);
    forall i | 0 <= i < |e| ensures !IsUpper(e[i]) {
      assert e[i] in e;
      assert e[i] in lo;
    }
  }

  lemma CleanSegmentEnds(st: string)
    requires st != [] && st[0] !in EdgeChars && st[|st| - 1] !in EdgeChars
    ensures var e := CollapseCommas(Lower(st), Whitespace);
      e != [] && e[|e| - 1] !in EdgeChars && (e[0] == ',' || e[0] !in EdgeChars)
  {
    var lo := Lower(st);
    LowerSpec(st);
    assert lo[0] == LowerChar(st[0]) && lo[|lo| - 1] == LowerChar(st[|st| - 1]);
    assert lo[0] !in EdgeChars && lo[|lo| - 1] !in EdgeChars;
    CollapseCommasLast(lo, Whitespace);
  }

  /** The front of a cleaned segment can still be a comma: a tab is not an
      edge character, so it survives the strip and the collapse then turns
      the tab and the comma after it into one comma. */
  lemma CleanSegmentMayStartWithComma()
    ensures CleanSegment("\t,x") == ",x"
  {
    var s := "\t,x";
    assert Strip(s, EdgeChars) == s by {
      assert LeadCount(s, EdgeChars) == 0;
      assert TrailCount(s, EdgeChars) == 0;
      assert s[0..3] == s;
    }
    assert Lower(s) == s;
    assert UnitLength(s, Whitespace) == 2;
    assert s[2..] == "x";
    assert UnitLength("x", Whitespace) == 0;
    assert RunLength(s, Whitespace) == 2;
  }
}
