/** The last steps of `cleanup_contact` (data/contact.py, lines 118-120
    and 130-138): the cell rewrites that tidy spaces and leading commas,
    and the order in which the columns of the address book are shown. */
module Columns {
  import opened TextOps
  import opened Hint

  /** Python's ordering of strings: code point by code point, a proper
      prefix first. */
  predicate LessEq(a: string, b: string)
    decreases |a|
  {
    if a == [] then true
    else if b == [] then false
    else if a[0] != b[0] then a[0] < b[0]
    else LessEq(a[1..], b[1..])
  }

  lemma {:induction false} LessEqTotal(a: string, b: string)
    ensures LessEq(a, b) || LessEq(b, a)
    decreases |a|
  {
    if a != [] && b != [] && a[0] == b[0] {
      LessEqTotal(a[1..], b[1..]);
    }
  }

  lemma {:induction false} LessEqTrans(a: string, b: string, c: string)
    requires LessEq(a, b) && LessEq(b, c)
    ensures LessEq(a, c)
    decreases |a|
  {
    if a != [] && b != [] && c != [] && a[0] == b[0] && b[0] == c[0] {
      LessEqTrans(a[1..], b[1..], c[1..]);
    }
  }

  lemma {:induction false} LessEqAntisym(a: string, b: string)
    requires LessEq(a, b) && LessEq(b, a)
    ensures a == b
    decreases |a|
  {
    if a != [] && b != [] {
      LessEqAntisym(a[1..], b[1..]);
      assert a == [a[0]] + a[1..] && b == [b[0]] + b[1..];
    }
  }

  predicate Sorted(s: seq<string>) {
    forall i, j :: 0 <= i < j < |s| ==> LessEq(s[i], s[j])
  }

  /** `x` placed before the first element above it. */
  function Insert(x: string, s: seq<string>): (r: seq<string>)
    requires Sorted(s)
    ensures Sorted(r)
    ensures multiset(r) == multiset(s) + multiset{x}
    ensures forall y :: y in r ==> y == x || y in s
  {
    if s == [] then [x]
    else if LessEq(x, s[0]) then
      InsertFront(x, s);
      [x] + s
    else
      assert s == [s[0]] + s[1..];
      LessEqTotal(x, s[0]);
      var t := Insert(x, s[1..]);
      InsertBehind(s[0], t, x, s[1..]);
      [s[0]] + t
  }

  lemma {:induction false} LessEqRefl(a: string)
    ensures LessEq(a, a)
    decreases |a|
  {
    if a != [] {
      LessEqRefl(a[1..]);
    }
  }

  /** A sorted sequence with an element in front that is below all of it
      is sorted. */
  lemma ConsSorted(x: string, s: seq<string>)
    requires Sorted(s)
    requires forall j :: 0 <= j < |s| ==> LessEq(x, s[j])
    ensures Sorted([x] + s)
  {
    var r := [x] + s;
    forall i, j | 0 <= i < j < |r| ensures LessEq(r[i], r[j]) {
      assert r[j] == s[j - 1];
      if i > 0 {
        assert r[i] == s[i - 1];
      }
    }
  }

  lemma InsertFront(x: string, s: seq<string>)
    requires Sorted(s) && s != [] && LessEq(x, s[0])
    ensures Sorted([x] + s)
  {
    forall j | 0 <= j < |s| ensures LessEq(x, s[j]) {
      if j > 0 {
        LessEqTrans(x, s[0], s[j]);
      }
    }
    ConsSorted(x, s);
  }

  lemma InsertBehind(h: string, t: seq<string>, x: string, rest: seq<string>)
    requires Sorted(t)
    requires Sorted([h] + rest) && LessEq(h, x)
    requires forall y :: y in t ==> y == x || y in rest
    ensures Sorted([h] + t)
  {
    forall j | 0 <= j < |t| ensures LessEq(h, t[j]) {
      assert t[j] in t;
      if t[j] != x {
        var k :| 0 <= k < |rest| && rest[k] == t[j];
        assert ([h] + rest)[0] == h && ([h] + rest)[k + 1] == rest[k];
        assert LessEq(([h] + rest)[0], ([h] + rest)[k + 1]);
      }
    }
    ConsSorted(h, t);
  }

  /** Line 130: `sorted(...)`. */
  function Sort(s: seq<string>): (r: seq<string>)
    ensures Sorted(r)
    ensures multiset(r) == multiset(s)
  {
    if s == [] then []
    else
      assert s == [s[0]] + s[1..];
      Insert(s[0], Sort(s[1..]))
  }

  /** Two sorted sequences with the same elements are equal, so `Sort`
      is the result of any correct sort, Python's included. */
  lemma {:induction false} SortedUnique(a: seq<string>, b: seq<string>)
    requires Sorted(a) && Sorted(b) && multiset(a) == multiset(b)
    ensures a == b
    decreases |a|
  {
    if a != [] {
      assert |b| == |multiset(b)| == |multiset(a)| == |a|;
      SameHead(a, b);
      MultisetTail(a);
      MultisetTail(b);
      SortedTail(a);
      SortedTail(b);
      SortedUnique(a[1..], b[1..]);
      assert a == [a[0]] + a[1..] && b == [b[0]] + b[1..];
    }
  }

  /** Sorted sequences with the same elements start alike. */
  lemma SameHead(a: seq<string>, b: seq<string>)
    requires Sorted(a) && Sorted(b) && multiset(a) == multiset(b) && a != [] && b != []
    ensures a[0] == b[0]
  {
    assert a[0] in multiset(b) && b[0] in multiset(a);
    var i :| 0 <= i < |b| && b[i] == a[0];
    var j :| 0 <= j < |a| && a[j] == b[0];
    SortedHeadMin(a, j);
    SortedHeadMin(b, i);
    LessEqAntisym(a[0], b[0]);
  }

  lemma SortedHeadMin(s: seq<string>, i: nat)
    requires Sorted(s) && i < |s|
    ensures LessEq(s[0], s[i])
  {
    if i == 0 {
      LessEqRefl(s[0]);
    }
  }

  lemma MultisetTail(s: seq<string>)
    requires s != []
    ensures multiset(s[1..]) == multiset(s) - multiset{s[0]}
  {
    assert s == [s[0]] + s[1..];
  }

  lemma SortedTail(s: seq<string>)
    requires Sorted(s) && s != []
    ensures Sorted(s[1..])
  {
    forall i, j | 0 <= i < j < |s| - 1 ensures LessEq(s[1..][i], s[1..][j]) {
      assert s[1..][i] == s[i + 1] && s[1..][j] == s[j + 1];
    }
  }

  /** The position of the first occurrence of `x`. */
  function FirstIndex(s: seq<string>, x: string): (k: nat)
    requires x in s
    ensures k < |s| && s[k] == x && x !in s[..k]
  {
    if s[0] == x then 0
    else
      var k := FirstIndex(s[1..], x);
      assert s[..k + 1] == [s[0]] + s[1..][..k];
      k + 1
  }

  /** Python's `list.remove`: the first occurrence of `x` taken out. */
  function RemoveFirst(s: seq<string>, x: string): (r: seq<string>)
    requires x in s
  {
    var k := FirstIndex(s, x);
    s[..k] + s[k + 1..]
  }

  /** Removing `x` takes one copy of it out and nothing else, and keeps a
      sorted list sorted. */
  lemma RemoveFirstSpec(s: seq<string>, x: string)
    requires x in s
    ensures multiset(RemoveFirst(s, x)) == multiset(s) - multiset{x}
    ensures Sorted(s) ==> Sorted(RemoveFirst(s, x))
  {
    var k := FirstIndex(s, x);
    assert s == s[..k] + [s[k]] + s[k + 1..];
    if Sorted(s) {
      DeleteSorted(s, k);
    }
  }

  lemma DeleteSorted(s: seq<string>, k: nat)
    requires k < |s| && Sorted(s)
    ensures Sorted(s[..k] + s[k + 1..])
  {
    var r := s[..k] + s[k + 1..];
    forall i, j | 0 <= i < j < |r| ensures LessEq(r[i], r[j]) {
      var i' := if i < k then i else i + 1;
      var j' := if j < k then j else j + 1;
      assert r[i] == s[i'] && r[j] == s[j'];
    }
  }

  /** Line 131: the columns always shown first, in this order. */
  const Forced: seq<string> := ["categories", "fn", "n", "org", "role", "email", "adr", "tel"]

  /** Lines 130-135: the columns sorted, then each name of `forced`
      taken out once, in turn, where present. */
  method SortRest(forced: seq<string>, columns: seq<string>) returns (rest: seq<string>)
    ensures Sorted(rest)
    ensures multiset(rest) == multiset(columns) - multiset(forced)
  {
    rest := Sort(columns);
    for i := 0 to |forced|
      invariant Sorted(rest)
      invariant multiset(rest) == multiset(columns) - multiset(forced[..i])
    {
      RemoveStep(columns, forced[..i], forced[i], rest);
      if forced[i] in rest {
        RemoveFirstSpec(rest, forced[i]);
        rest := RemoveFirst(rest, forced[i]);
      }
      assert forced[..i + 1] == forced[..i] + [forced[i]];
    }
    assert forced[..|forced|] == forced;
  }

  /** Taking `x` out where present of what is left after `done` were taken
      out is taking `done` and then `x` out. */
  lemma RemoveStep(columns: seq<string>, done: seq<string>, x: string, rest: seq<string>)
    requires multiset(rest) == multiset(columns) - multiset(done)
    ensures x in rest ==> multiset(rest) - multiset{x} == multiset(columns) - multiset(done + [x])
    ensures x !in rest ==> multiset(rest) == multiset(columns) - multiset(done + [x])
  {
    assert multiset(done + [x]) == multiset(done) + multiset{x};
  }

  /** Lines 130-138: the forced columns, then the other original columns
      in sorted order. */
  method OrderColumns(columns: seq<string>) returns (cols: seq<string>)
    ensures |Forced| <= |cols| && cols[..|Forced|] == Forced
    ensures Sorted(cols[|Forced|..])
    ensures multiset(cols[|Forced|..]) == multiset(columns) - multiset(Forced)
  {
    var rest := SortRest(Forced, columns);
    cols := Forced + rest;
    assert cols[..|Forced|] == Forced && cols[|Forced|..] == rest;
  }

  /** With distinct original columns (as a frame's are), the result names
      every original column and every forced one, each exactly once. */
  lemma OrderColumnsDistinct(columns: seq<string>, cols: seq<string>)
    requires forall i, j :: 0 <= i < j < |columns| ==> columns[i] != columns[j]
    requires |Forced| <= |cols| && cols[..|Forced|] == Forced
    requires multiset(cols[|Forced|..]) == multiset(columns) - multiset(Forced)
    ensures forall x :: x in cols <==> x in columns || x in Forced
    ensures forall x :: multiset(cols)[x] <= 1
  {
    var rest := cols[|Forced|..];
    assert cols == Forced + rest;
    ForcedDistinct();
    forall x ensures multiset(cols)[x] <= 1 && (x in cols <==> x in columns || x in Forced) {
      DistinctCount(columns, x);
      DistinctCount(Forced, x);
      CountAfter(Forced, rest, multiset(columns), x);
    }
  }

  lemma ForcedDistinct()
    ensures forall i, j :: 0 <= i < j < |Forced| ==> Forced[i] != Forced[j]
  {
  }

  /** With `rest` holding what `m` has beyond `f`, `f + rest` counts each
      element as `f` and `m` together do, capped by neither exceeding one. */
  lemma CountAfter(f: seq<string>, rest: seq<string>, m: multiset<string>, x: string)
    requires multiset(rest) == m - multiset(f)
    requires m[x] <= 1 && multiset(f)[x] <= 1
    ensures multiset(f + rest)[x] <= 1
    ensures x in f + rest <==> m[x] > 0 || x in f
  {
    assert multiset(f + rest) == multiset(f) + multiset(rest);
  }

  lemma {:induction false} DistinctCount(s: seq<string>, x: string)
    requires forall i, j :: 0 <= i < j < |s| ==> s[i] != s[j]
    ensures multiset(s)[x] <= 1
    decreases |s|
  {
    if s != [] {
      assert s == [s[0]] + s[1..];
      DistinctCount(s[1..], x);
      if s[0] == x {
        assert x !in s[1..];
      }
    }
  }

  /** Line 118: every run of two or more spaces in a cell becomes one. The
      result has no two spaces in a row, keeps every other character in
      order, has a space exactly when the cell has, and a second pass
      changes nothing. */
  lemma SquashSpacesSpec(s: string)
    ensures var r := CollapseRuns(s, ' ');
      && NoAdjacent(r, ' ')
      && Without(r, ' ') == Without(s, ' ')
      && (' ' in r <==> ' ' in s)
      && CollapseRuns(r, ' ') == r
  {
    CollapseRunsNoAdjacent(s, ' ');
    CollapseRunsKeepsRest(s, ' ');
    CollapseRunsIdempotent(s, ' ');
  }

  /** Each maximal run of spaces becomes exactly one space, and the text on
      either side of it is rewritten on its own. */
  lemma SpaceRunIsOneSpace(a: string, run: string, b: string)
    requires a == [] || a[|a| - 1] != ' '
    requires run != [] && forall k :: 0 <= k < |run| ==> run[k] == ' '
    requires b == [] || b[0] != ' '
    ensures CollapseRuns(a + run + b, ' ') == CollapseRuns(a, ' ') + " " + CollapseRuns(b, ' ')
  {
    CollapseRunsSplice(a + run, b, ' ');
    CollapseRunsSpliceAfter(a, run, ' ');
    CollapseRunsAll(run, ' ');
  }

  /** Line 120: a cell whose first non-blank character is a comma has that
      comma and the blanks around it replaced by one space. */
  function LeadingCommaToSpace(s: string): string {
    CommaToSpace(s, Whitespace)
  }

  /** The rewrite of line 120 with `blank` for the class `\s`. */
  function CommaToSpace(s: string, blank: set<char>): string {
    var w := LeadCount(s, blank);
    if w < |s| && s[w] == ',' then
      " " + s[w + 1 + LeadCount(s[w + 1..], blank)..]
    else s
  }

  /** The rewrite applies exactly when the first non-blank character is a
      comma; it then leaves one space followed by the cell after that comma
      and the blanks following it, a tail that does not start with a blank,
      and is otherwise the identity. */
  lemma CommaToSpaceSpec(s: string, blank: set<char>)
    ensures var r := CommaToSpace(s, blank); var w := LeadCount(s, blank);
      && (w < |s| && s[w] == ',' ==>
            && |r| >= 1 && r[0] == ' '
            && (|r| > 1 ==> r[1] !in blank)
            && r[1..] == s[w + 1 + LeadCount(s[w + 1..], blank)..]
            && r[1..] == s[|s| - |r| + 1..])
      && (!(w < |s| && s[w] == ',') ==> r == s)
  {
    var w := LeadCount(s, blank);
    if w < |s| && s[w] == ',' {
      CommaToSpaceParts(s, blank);
      var e := w + 1 + LeadCount(s[w + 1..], blank);
      var r := CommaToSpace(s, blank);
      assert r[1..] == s[e..];
      if |r| > 1 {
        assert s[e] == s[w + 1..][e - w - 1];
      }
    }
  }

  /** Where it applies, the rewrite splits the cell into blanks, the
      comma, blanks, and the kept tail. */
  lemma CommaToSpaceParts(s: string, blank: set<char>)
    requires LeadCount(s, blank) < |s| && s[LeadCount(s, blank)] == ','
    ensures var w := LeadCount(s, blank); var e := w + 1 + LeadCount(s[w + 1..], blank);
      && e <= |s|
      && s == s[..w] + [','] + s[w + 1..e] + s[e..]
      && (forall k :: 0 <= k < w ==> s[k] in blank)
      && (forall k :: w + 1 <= k < e ==> s[k] in blank)
      && CommaToSpace(s, blank) == " " + s[e..]
  {
    var w := LeadCount(s, blank);
    var e := w + 1 + LeadCount(s[w + 1..], blank);
    RunAfter(s, w + 1, blank);
    SliceAround(s, w, e);
    TakeDrop(s, e);
  }

  lemma TakeDrop(s: string, e: nat)
    requires e <= |s|
    ensures s == s[..e] + s[e..]
  {
  }

  /** The rewrite drops one comma and blanks and nothing else. */
  lemma LeadingCommaToSpaceKeepsText(s: string)
    requires LeadCount(s, Whitespace) < |s| && s[LeadCount(s, Whitespace)] == ','
    ensures NonSpace(s) == [','] + NonSpace(LeadingCommaToSpace(s))
  {
    CommaToSpaceParts(s, Whitespace);
    var w := LeadCount(s, Whitespace);
    var e := w + 1 + LeadCount(s[w + 1..], Whitespace);
    BlankSlice(s, 0, w);
    BlankSlice(s, w + 1, e);
    NonSpaceCommaTail(s[..w], s[w + 1..e], s[e..]);
    NonSpaceAfterBlank(s[e..]);
  }

  /** Blanks, a comma, blanks and a tail keep the comma and the tail's
      text. */
  lemma NonSpaceCommaTail(a: string, c: string, d: string)
    requires AllSpace(a) && AllSpace(c)
    ensures NonSpace(a + [','] + c + d) == [','] + NonSpace(d)
  {
    NonSpaceAroundComma(a, c);
    NonSpaceAppend(a + [','] + c, d);
  }

  lemma NonSpaceAfterBlank(d: string)
    ensures NonSpace(" " + d) == NonSpace(d)
  {
    assert (" " + d)[1..] == d;
  }
}
