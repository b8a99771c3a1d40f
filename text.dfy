/** Python string primitives used by the address pipeline, on `string` (a
    sequence of Unicode scalar values, as Python 3 `str` is). */
module TextOps {

  /** The characters for which Python's `str.isspace` holds; the same set is
      matched by `\s` in a `re` pattern on `str` and removed by `str.strip()`. */
  const Whitespace: set<char> := {
    '\t', '\n', '\U{B}', '\U{C}', '\r', '\U{1C}', '\U{1D}', '\U{1E}', '\U{1F}', ' ',
    '\U{85}', '\U{A0}', '\U{1680}', '\U{2000}', '\U{2001}', '\U{2002}', '\U{2003}',
    '\U{2004}', '\U{2005}', '\U{2006}', '\U{2007}', '\U{2008}', '\U{2009}', '\U{200A}',
    '\U{2028}', '\U{2029}', '\U{202F}', '\U{205F}', '\U{3000}' }

  predicate IsUpper(c: char) { 'A' <= c <= 'Z' }

  /** `str.lower()` on one character of an ASCII text. */
  function LowerChar(c: char): char {
    if IsUpper(c) then (c as int + 32) as char else c
  }

  function Lower(s: string): (r: string) {
    seq(|s|, i requires 0 <= i < |s| => LowerChar(s[i]))
  }

  /** `Lower` maps each capital to its small letter (32 code points on),
      leaves no upper-case letter, changes no other character, and
      lowering twice is lowering once. */
  lemma LowerSpec(s: string)
    ensures |Lower(s)| == |s|
    ensures forall i :: 0 <= i < |s| && IsUpper(s[i]) ==> Lower(s)[i] as int == s[i] as int + 32
    ensures forall i :: 0 <= i < |s| ==> !IsUpper(Lower(s)[i])
    ensures forall i :: 0 <= i < |s| && !IsUpper(s[i]) ==> Lower(s)[i] == s[i]
    ensures Lower(Lower(s)) == Lower(s)
  {
  }

  /** Length of the longest prefix of `s` made of characters of `cls`. */
  function LeadCount(s: string, cls: set<char>): (n: nat)
    ensures n <= |s|
    ensures forall k :: 0 <= k < n ==> s[k] in cls
    ensures n == |s| || s[n] !in cls
  {
    if s == [] || s[0] !in cls then 0 else 1 + LeadCount(s[1..], cls)
  }

  /** Length of the longest suffix of `s` made of characters of `cls`. */
  function TrailCount(s: string, cls: set<char>): (n: nat)
    ensures n <= |s|
    ensures forall k :: |s| - n <= k < |s| ==> s[k] in cls
    ensures n == |s| || s[|s| - 1 - n] !in cls
  {
    if s == [] || s[|s| - 1] !in cls then 0 else 1 + TrailCount(s[..|s| - 1], cls)
  }

  /** Python `s.strip(chars)`: both ends lose every character of `cls`. */
  function Strip(s: string, cls: set<char>): string {
    var a := LeadCount(s, cls);
    if a == |s| then [] else s[a..|s| - TrailCount(s, cls)]
  }

  /** `Strip` removes exactly the characters of `cls` at both ends: the
      result is a slice of `s` with only `cls` characters outside it; it is
      empty only for a text made of them, and otherwise neither starts nor
      ends with one. */
  lemma StripSpec(s: string, cls: set<char>)
    ensures var r := Strip(s, cls);
      && (exists a, b :: StrippedSlice(s, cls, a, b) && r == s[a..b])
      && (r == [] <==> forall k :: 0 <= k < |s| ==> s[k] in cls)
      && (r != [] ==> r[0] !in cls && r[|r| - 1] !in cls)
      && |r| <= |s|
      && forall x :: x in r ==> x in s
  {
    var a := LeadCount(s, cls);
    var b := if a == |s| then a else |s| - TrailCount(s, cls);
    if a < |s| {
      assert s[a] !in cls;
      assert a < b;
    }
    assert StrippedSlice(s, cls, a, b);
  }

  /** `s[a..b]` is a slice of `s` outside which every character is in `cls`. */
  predicate StrippedSlice(s: string, cls: set<char>, a: int, b: int) {
    && 0 <= a <= b <= |s|
    && (forall k :: 0 <= k < a ==> s[k] in cls)
    && (forall k :: b <= k < |s| ==> s[k] in cls)
  }

  /** Python `str.split(sep)` with a one-character separator: every
      occurrence of `sep` ends one part, empty parts included. */
  function SplitOn(s: string, sep: char): (parts: seq<string>)
    ensures |parts| >= 1
    ensures forall i :: 0 <= i < |parts| ==> sep !in parts[i]
    ensures JoinWith(parts, [sep]) == s
  {
    if s == [] then [[]]
    else
      var rest := SplitOn(s[1..], sep);
      if s[0] == sep then [[]] + rest
      else JoinHead(s[0], rest, [sep]); [[s[0]] + rest[0]] + rest[1..]
  }

  /** Python `sep.join(parts)` for a non-empty list. */
  function JoinWith(parts: seq<string>, sep: string): string
    requires |parts| >= 1
  {
    if |parts| == 1 then parts[0] else parts[0] + sep + JoinWith(parts[1..], sep)
  }

  lemma JoinHead(c: char, parts: seq<string>, sep: string)
    requires |parts| >= 1
    ensures JoinWith([[c] + parts[0]] + parts[1..], sep) == [c] + JoinWith(parts, sep)
  {
    var ps := [[c] + parts[0]] + parts[1..];
    assert ps[1..] == parts[1..];
  }

  /** A text without the separator is one part. */
  lemma {:induction false} SplitOnWhole(a: string, sep: char)
    requires sep !in a
    ensures SplitOn(a, sep) == [a]
    decreases |a|
  {
    if a != [] {
      SplitOnWhole(a[1..], sep);
      assert [a[0]] + a[1..] == a;
    }
  }

  /** A separator after a text without one ends the first part. */
  lemma {:induction false} SplitOnFirst(a: string, b: string, sep: char)
    requires sep !in a
    ensures SplitOn(a + [sep] + b, sep) == [a] + SplitOn(b, sep)
    decreases |a|
  {
    var s := a + [sep] + b;
    if a == [] {
      assert s[1..] == b;
    } else {
      assert s[1..] == a[1..] + [sep] + b;
      SplitOnFirst(a[1..], b, sep);
      var rest := SplitOn(s[1..], sep);
      assert rest[0] == a[1..] && rest[1..] == SplitOn(b, sep);
      assert s[0] == a[0] && a[0] != sep;
      assert [a[0]] + a[1..] == a;
    }
  }

  /** Splitting undoes joining when no part holds the separator. */
  lemma {:induction false} SplitOnJoin(parts: seq<string>, sep: char)
    requires |parts| >= 1
    requires forall i :: 0 <= i < |parts| ==> sep !in parts[i]
    ensures SplitOn(JoinWith(parts, [sep]), sep) == parts
    decreases |parts|
  {
    if |parts| == 1 {
      SplitOnWhole(parts[0], sep);
    } else {
      SplitOnJoin(parts[1..], sep);
      SplitOnFirst(parts[0], JoinWith(parts[1..], [sep]), sep);
      assert [parts[0]] + parts[1..] == parts;
    }
  }

  /** Python `s.replace(pat, "")`: occurrences are found left to right and
      do not overlap. */
  function RemoveAll(s: string, pat: string): (r: string)
    requires |pat| > 0
    ensures |r| <= |s|
    ensures forall x :: x in r ==> x in s
    ensures |pat| == 1 ==> pat[0] !in r
    decreases |s|
  {
    if |s| < |pat| then
      (assert |pat| == 1 ==> s == []; s)
    else if s[..|pat|] == pat then RemoveAll(s[|pat|..], pat)
    else [s[0]] + RemoveAll(s[1..], pat)
  }

  /** Removing a text does not guarantee its absence: removing an inner
      occurrence can join its neighbours into a new one. */
  lemma RemoveAllMayLeavePattern()
    ensures RemoveAll("((c)c)", "(c)") == "(c)"
  {
    assert "((c)c)"[..3][1] != "(c)"[1];
    assert "((c)c)"[1..][..3] == "(c)";
    assert "((c)c)"[1..][3..] == "c)";
    assert RemoveAll("c)", "(c)") == "c)";
  }

  /** `pat` occurs nowhere in `s`: not at its start, nor further on. */
  predicate Absent(s: string, pat: string)
    decreases |s|
  {
    |s| < |pat| || (s[..|pat|] != pat && s != [] && Absent(s[1..], pat))
  }

  /** Removing a text that does not occur changes nothing. */
  lemma {:induction false} RemoveAllAbsent(s: string, pat: string)
    requires |pat| > 0 && Absent(s, pat)
    ensures RemoveAll(s, pat) == s
    decreases |s|
  {
    if |s| >= |pat| {
      RemoveAllAbsent(s[1..], pat);
      assert s == [s[0]] + s[1..];
    }
  }

  /** Removing a one-character text keeps every other character in order. */
  lemma {:induction false} RemoveAllChar(s: string, c: char)
    ensures RemoveAll(s, [c]) == Without(s, c)
    decreases |s|
  {
    if s != [] {
      RemoveAllChar(s[1..], c);
      assert s[..1] == [s[0]];
    }
  }

  /** No two consecutive characters of `s` are both `c`. */
  predicate NoAdjacent(s: string, c: char) {
    forall i :: 0 <= i < |s| - 1 ==> !(s[i] == c && s[i + 1] == c)
  }

  /** `s` with every occurrence of `c` removed. */
  function Without(s: string, c: char): string {
    if s == [] then [] else (if s[0] == c then [] else [s[0]]) + Without(s[1..], c)
  }

  /** A character that does not occur is removed from nowhere. */
  lemma {:induction false} WithoutAbsent(s: string, c: char)
    requires c !in s
    ensures Without(s, c) == s
    decreases |s|
  {
    if s != [] {
      assert c !in s[1..];
      WithoutAbsent(s[1..], c);
      assert s == [s[0]] + s[1..];
    }
  }

  /** Every run of `c` shrinks to one `c` (the regex `c+` replaced by `c`). */
  function CollapseRuns(s: string, c: char): (r: string)
    ensures |r| <= |s|
    ensures |s| > 0 ==> |r| > 0 && r[0] == s[0] && r[|r| - 1] == s[|s| - 1]
  {
    if |s| <= 1 then s
    else if s[0] == c && s[1] == c then CollapseRuns(s[1..], c)
    else
      var t := CollapseRuns(s[1..], c);
      assert ([s[0]] + t)[1..] == t;
      [s[0]] + t
  }

  /** After collapsing, no two `c` are adjacent. */
  lemma {:induction false} CollapseRunsNoAdjacent(s: string, c: char)
    ensures NoAdjacent(CollapseRuns(s, c), c)
    decreases |s|
  {
    if |s| > 1 {
      CollapseRunsNoAdjacent(s[1..], c);
      var t := CollapseRuns(s[1..], c);
      if !(s[0] == c && s[1] == c) {
        var r := [s[0]] + t;
        forall i | 0 <= i < |r| - 1 ensures !(r[i] == c && r[i + 1] == c) {
          if i > 0 {
            assert r[i] == t[i - 1] && r[i + 1] == t[i];
          }
        }
      }
    }
  }

  /** Collapsing keeps every other character, in order, and keeps `c`
      present exactly when it was. */
  lemma {:induction false} CollapseRunsKeepsRest(s: string, c: char)
    ensures Without(CollapseRuns(s, c), c) == Without(s, c)
    ensures c in CollapseRuns(s, c) <==> c in s
    decreases |s|
  {
    if |s| > 1 {
      CollapseRunsKeepsRest(s[1..], c);
      var t := CollapseRuns(s[1..], c);
      assert s == [s[0]] + s[1..];
      if !(s[0] == c && s[1] == c) {
        assert ([s[0]] + t)[1..] == t;
        assert c in [s[0]] + t <==> c == s[0] || c in t;
      }
    }
  }

  /** A text with no repeated `c` is left as it is; so collapsing is idempotent. */
  lemma {:induction false} CollapseRunsFixpoint(s: string, c: char)
    requires NoAdjacent(s, c)
    ensures CollapseRuns(s, c) == s
    decreases |s|
  {
    if |s| > 1 {
      assert NoAdjacent(s[1..], c) by {
        forall i | 0 <= i < |s[1..]| - 1 ensures !(s[1..][i] == c && s[1..][i + 1] == c) {
          assert s[1..][i] == s[i + 1] && s[1..][i + 1] == s[i + 2];
        }
      }
      CollapseRunsFixpoint(s[1..], c);
    }
  }

  lemma CollapseRunsIdempotent(s: string, c: char)
    ensures CollapseRuns(CollapseRuns(s, c), c) == CollapseRuns(s, c)
  {
    CollapseRunsNoAdjacent(s, c);
    CollapseRunsFixpoint(CollapseRuns(s, c), c);
  }

  /** A prefix free of `c` passes through a collapse untouched. */
  lemma {:induction false} CollapseRunsPrefix(x: string, t: string, c: char)
    requires c !in x
    ensures CollapseRuns(x + t, c) == x + CollapseRuns(t, c)
    decreases |x|
  {
    if x != [] {
      assert x[0] in x && (x + t)[0] == x[0];
      assert (x + t)[1..] == x[1..] + t;
      CollapseRunsPrefix(x[1..], t, c);
      if |x + t| > 1 {
        assert x[0] != c;
        assert CollapseRuns(x + t, c) == [x[0]] + CollapseRuns(x[1..] + t, c);
        assert [x[0]] + (x[1..] + CollapseRuns(t, c)) == x + CollapseRuns(t, c);
      } else {
        assert t == [] && x + t == x;
        assert CollapseRuns(t, c) == t;
      }
    } else {
      assert x + t == t;
    }
  }

  /** A leading `c` followed by a text that does not start with `c` stays. */
  lemma CollapseRunsSingle(t: string, c: char)
    requires t == [] || t[0] != c
    ensures CollapseRuns([c] + t, c) == [c] + CollapseRuns(t, c)
  {
    assert ([c] + t)[1..] == t;
    if t == [] {
      assert CollapseRuns(t, c) == [];
    }
  }

  /** A first character other than `c` stays in front. */
  lemma CollapseRunsOther(x: char, t: string, c: char)
    requires x != c
    ensures CollapseRuns([x] + t, c) == [x] + CollapseRuns(t, c)
  {
    assert ([x] + t)[1..] == t;
  }

  /** Two leading `c` count as one. */
  lemma CollapseRunsDouble(t: string, c: char)
    ensures CollapseRuns([c, c] + t, c) == CollapseRuns([c] + t, c)
  {
    assert ([c, c] + t)[1..] == [c] + t;
  }

  /** Collapsing `c` runs works piecewise when the second part does not
      start with `c`. */
  lemma {:induction false} CollapseRunsSplice(a: string, b: string, c: char)
    requires b == [] || b[0] != c
    ensures CollapseRuns(a + b, c) == CollapseRuns(a, c) + CollapseRuns(b, c)
    decreases |a|
  {
    if a == [] {
      assert a + b == b;
    } else if b == [] {
      assert a + b == a;
    } else if |a| == 1 {
      var s := a + b;
      assert s[0] == a[0] && s[1] == b[0] && s[1..] == b;
      assert CollapseRuns(s, c) == [a[0]] + CollapseRuns(b, c);
    } else {
      var s := a + b;
      assert s[0] == a[0] && s[1] == a[1] && s[1..] == a[1..] + b;
      CollapseRunsSplice(a[1..], b, c);
      if a[0] == c && a[1] == c {
        assert CollapseRuns(s, c) == CollapseRuns(a[1..] + b, c);
      } else {
        assert CollapseRuns(s, c) == [a[0]] + CollapseRuns(a[1..] + b, c);
        assert CollapseRuns(a, c) == [a[0]] + CollapseRuns(a[1..], c);
      }
    }
  }

  /** Collapsing `c` runs works piecewise when the first part does not
      end with `c`. */
  lemma {:induction false} CollapseRunsSpliceAfter(a: string, b: string, c: char)
    requires a == [] || a[|a| - 1] != c
    ensures CollapseRuns(a + b, c) == CollapseRuns(a, c) + CollapseRuns(b, c)
    decreases |a|
  {
    if a == [] {
      assert a + b == b;
    } else if |a| == 1 {
      assert a + b == [a[0]] + b && a == [a[0]] + [];
      CollapseRunsOther(a[0], b, c);
      CollapseRunsOther(a[0], [], c);
    } else {
      assert a[1..][|a| - 2] == a[|a| - 1];
      CollapseRunsSpliceAfter(a[1..], b, c);
      CollapseRunsSpliceStep(a, b, c);
    }
  }

  /** One step of `CollapseRunsSpliceAfter`: the first character of `a`
      is kept or dropped alike in `a` and in `a + b`. */
  lemma CollapseRunsSpliceStep(a: string, b: string, c: char)
    requires |a| >= 2
    requires CollapseRuns(a[1..] + b, c) == CollapseRuns(a[1..], c) + CollapseRuns(b, c)
    ensures CollapseRuns(a + b, c) == CollapseRuns(a, c) + CollapseRuns(b, c)
  {
    var h := if a[0] == c && a[1] == c then [] else [a[0]];
    CollapseRunsHeadOf(a, b, c);
    CollapseRunsHead(a, c);
    ConcatStep(h, CollapseRuns(a[1..] + b, c), CollapseRuns(a[1..], c),
               CollapseRuns(b, c), CollapseRuns(a + b, c), CollapseRuns(a, c));
  }

  /** `CollapseRunsHead` on `a + b`, in terms of `a`'s first characters. */
  lemma CollapseRunsHeadOf(a: string, b: string, c: char)
    requires |a| >= 2
    ensures CollapseRuns(a + b, c)
            == (if a[0] == c && a[1] == c then [] else [a[0]]) + CollapseRuns(a[1..] + b, c)
  {
    var s := a + b;
    assert s[0] == a[0] && s[1] == a[1] && s[1..] == a[1..] + b;
    CollapseRunsHead(s, c);
  }

  /** One unfolding of `CollapseRuns` on a text of two or more characters. */
  lemma CollapseRunsHead(s: string, c: char)
    requires |s| >= 2
    ensures CollapseRuns(s, c)
            == (if s[0] == c && s[1] == c then [] else [s[0]]) + CollapseRuns(s[1..], c)
  {
    if s[0] == c && s[1] == c {
      assert [] + CollapseRuns(s[1..], c) == CollapseRuns(s[1..], c);
    }
  }

  lemma ConcatStep(h: string, x: string, y: string, z: string, cs: string, ca: string)
    requires cs == h + x && x == y + z && ca == h + y
    ensures cs == ca + z
  {
  }

  /** A whole run of `c` collapses to one `c`. */
  lemma {:induction false} CollapseRunsAll(run: string, c: char)
    requires run != [] && forall k :: 0 <= k < |run| ==> run[k] == c
    ensures CollapseRuns(run, c) == [c]
    decreases |run|
  {
    if |run| > 1 {
      assert run[1..][0] == c;
      CollapseRunsAll(run[1..], c);
    }
  }

  /** Every maximal run of characters of `cls` becomes one copy of `rep`
      (the regex `[cls]+` replaced by `rep`). */
  function ReplaceRuns(s: string, cls: set<char>, rep: string): (r: string)
    decreases |s|
  {
    if s == [] then []
    else if s[0] in cls then rep + ReplaceRuns(s[LeadCount(s, cls)..], cls, rep)
    else [s[0]] + ReplaceRuns(s[1..], cls, rep)
  }

  /** Replacing runs leaves a text without `cls` characters as it is, and
      removes every `cls` character when `rep` has none. */
  lemma {:induction false} ReplaceRunsChars(s: string, cls: set<char>, rep: string)
    ensures (forall x :: x in s ==> x !in cls) ==> ReplaceRuns(s, cls, rep) == s
    ensures (forall x :: x in rep ==> x !in cls) ==> forall x :: x in ReplaceRuns(s, cls, rep) ==> x !in cls
    ensures forall x :: x in ReplaceRuns(s, cls, rep) ==> x in s || x in rep
    decreases |s|
  {
    if s != [] {
      if s[0] in cls {
        var n := LeadCount(s, cls);
        ReplaceRunsChars(s[n..], cls, rep);
        assert forall x :: x in s[n..] ==> x in s;
      } else {
        ReplaceRunsChars(s[1..], cls, rep);
        assert s == [s[0]] + s[1..];
        assert forall x :: x in s[1..] ==> x in s;
      }
    }
  }

  /** Replacing runs works piecewise when the cut does not split a run. */
  lemma {:induction false} ReplaceRunsSplice(a: string, b: string, cls: set<char>, rep: string)
    requires a == [] || a[|a| - 1] !in cls
    ensures ReplaceRuns(a + b, cls, rep) == ReplaceRuns(a, cls, rep) + ReplaceRuns(b, cls, rep)
    decreases |a|
  {
    if a != [] {
      if a[0] in cls {
        var n := LeadCount(a, cls);
        assert n < |a|;
        LeadCountPrefix(a, b, cls);
        assert (a + b)[n..] == a[n..] + b;
        assert (a + b)[0] == a[0];
        ReplaceRunsSplice(a[n..], b, cls, rep);
        assert ReplaceRuns(a + b, cls, rep) == rep + ReplaceRuns(a[n..] + b, cls, rep);
      } else {
        assert (a + b)[1..] == a[1..] + b;
        assert (a + b)[0] == a[0];
        ReplaceRunsSplice(a[1..], b, cls, rep);
      }
    } else {
      assert a + b == b;
    }
  }

  lemma LeadCountPrefix(a: string, b: string, cls: set<char>)
    requires LeadCount(a, cls) < |a|
    ensures LeadCount(a + b, cls) == LeadCount(a, cls)
  {
    var n := LeadCount(a, cls);
    var m := LeadCount(a + b, cls);
    assert (a + b)[n] == a[n];
    if m < n {
      assert (a + b)[m] == a[m];
    }
  }

  /** A non-empty run of characters of `cls`, followed by a text that does
      not continue it, becomes exactly one `rep`. */
  lemma ReplaceRunsRun(run: string, b: string, cls: set<char>, rep: string)
    requires run != []
    requires forall k :: 0 <= k < |run| ==> run[k] in cls
    requires b == [] || b[0] !in cls
    ensures ReplaceRuns(run + b, cls, rep) == rep + ReplaceRuns(b, cls, rep)
  {
    var s := run + b;
    assert s[0] == run[0];
    assert forall k :: 0 <= k < |run| ==> s[k] == run[k];
    assert |run| < |s| ==> s[|run|] == b[0];
    assert LeadCount(s, cls) == |run|;
    assert s[|run|..] == b;
  }
}
