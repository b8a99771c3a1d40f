/** The location hint built from the `adr` column before any lookup
    (data/contact.py, lines 178-191). */
module Hint {
  import opened TextOps

  /** The escaped forms of `(` and `)` the regex of line 181 also accepts. */
  const EscapedLeft: string := "@ESCAPEDLEFTPARENTHESIS@"
  const EscapedRight: string := "@ESCAPEDRIGHTPARENTHESIS@"

  predicate StartsWith(s: string, p: string) {
    |p| <= |s| && s[..|p|] == p
  }

  /** Length of the opening token `(?:\(|@ESCAPEDLEFTPARENTHESIS@)` at the
      start of `s`, or 0. */
  function OpenLength(s: string): (n: nat)
    ensures n <= |s|
  {
    if s != [] && s[0] == '(' then 1
    else if StartsWith(s, EscapedLeft) then |EscapedLeft|
    else 0
  }

  /** Length of the closing token `(?:\)|@ESCAPEDRIGHTPARENTHESIS@)` at the
      start of `s`, or 0. */
  function CloseLength(s: string): (n: nat)
    ensures n <= |s|
  {
    if s != [] && s[0] == ')' then 1
    else if StartsWith(s, EscapedRight) then |EscapedRight|
    else 0
  }

  /** End of the match of `.*` and a closing token at the start of `t`, or
      0 when there is none. `.` does not match a line break and `.*` is
      greedy, so the match ends with the last closing token of the first
      line. */
  function CloseEnd(t: string): (e: nat)
    ensures e <= |t|
    decreases |t|
  {
    if t == [] || t[0] == '\n' then 0
    else
      var e := CloseEnd(t[1..]);
      if e > 0 then e + 1 else CloseLength(t)
  }

  /** Line 181: `re.sub` of the pattern with a space, scanning left to
      right; where an opening token has a closing token after it on its
      line, everything up to the last such closing token becomes one
      space. */
  function RemoveParenthetical(s: string): string
    decreases |s|
  {
    if s == [] then []
    else
      var o := OpenLength(s);
      if o > 0 && CloseEnd(s[o..]) > 0 then " " + RemoveParenthetical(s[o + CloseEnd(s[o..])..])
      else [s[0]] + RemoveParenthetical(s[1..])
  }

  /** No `)` comes before the first line break of `t`. */
  predicate NoCloseOnLine(t: string)
    decreases |t|
  {
    t == [] || t[0] == '\n' || (t[0] != ')' && NoCloseOnLine(t[1..]))
  }

  /** No `(` of `r` has a `)` after it on the same line. */
  predicate NoParenPair(r: string)
    decreases |r|
  {
    r == [] || ((r[0] == '(' ==> NoCloseOnLine(r[1..])) && NoParenPair(r[1..]))
  }

  /** After line 181 no `(` is followed by a `)` on its line. */
  lemma {:induction false} RemoveParentheticalNoPair(s: string)
    ensures NoParenPair(RemoveParenthetical(s))
    decreases |s|
  {
    if s != [] {
      var o := OpenLength(s);
      if o > 0 && CloseEnd(s[o..]) > 0 {
        RemoveParentheticalNoPair(s[o + CloseEnd(s[o..])..]);
      } else {
        RemoveParentheticalNoPair(s[1..]);
        if s[0] == '(' {
          CloseEndNone(s[1..]);
          RemoveKeepsNoClose(s[1..]);
        }
      }
    }
  }

  /** Where no closing token ends a match, the first line has no `)`. */
  lemma {:induction false} CloseEndNone(t: string)
    requires CloseEnd(t) == 0
    ensures NoCloseOnLine(t)
    decreases |t|
  {
    if t != [] && t[0] != '\n' {
      CloseEndNone(t[1..]);
    }
  }

  /** Line 181 brings no `)` onto a first line that had none. */
  lemma {:induction false} RemoveKeepsNoClose(t: string)
    requires NoCloseOnLine(t)
    ensures NoCloseOnLine(RemoveParenthetical(t))
    decreases |t|
  {
    if t != [] {
      var o := OpenLength(t);
      if o > 0 && CloseEnd(t[o..]) > 0 {
        var m := o + CloseEnd(t[o..]);
        MatchOnOneLine(t);
        NoCloseDrop(t, m);
        RemoveKeepsNoClose(t[m..]);
      } else if t[0] != '\n' {
        RemoveKeepsNoClose(t[1..]);
      }
    }
  }

  /** A match of line 181 holds no line break. */
  lemma MatchOnOneLine(t: string)
    requires OpenLength(t) > 0 && CloseEnd(t[OpenLength(t)..]) > 0
    ensures forall k :: 0 <= k < OpenLength(t) + CloseEnd(t[OpenLength(t)..]) ==> t[k] != '\n'
  {
    var o := OpenLength(t);
    var u := t[o..];
    TokenHasNoBreak(t, o, EscapedLeft);
    CloseEndNoBreak(u);
    forall k | o <= k < o + CloseEnd(u) ensures t[k] != '\n' {
      assert t[k] == u[k - o];
    }
  }

  lemma TokenHasNoBreak(t: string, o: nat, tok: string)
    requires o <= |t| && (o <= 1 || (o == |tok| && StartsWith(t, tok)))
    requires '\n' !in tok && (o == 1 ==> t[0] != '\n')
    ensures forall k :: 0 <= k < o ==> t[k] != '\n'
  {
    if o > 1 {
      forall k | 0 <= k < o ensures t[k] != '\n' {
        assert t[k] == tok[k];
      }
    }
  }

  lemma {:induction false} CloseEndNoBreak(u: string)
    ensures forall k :: 0 <= k < CloseEnd(u) ==> u[k] != '\n'
    decreases |u|
  {
    if u != [] && u[0] != '\n' {
      CloseEndNoBreak(u[1..]);
      if CloseEnd(u[1..]) > 0 {
        forall k | 1 <= k < CloseEnd(u) ensures u[k] != '\n' {
          assert u[k] == u[1..][k - 1];
        }
      } else {
        TokenHasNoBreak(u, CloseLength(u), EscapedRight);
      }
    }
  }

  /** Dropping a part of the first line keeps it free of `)`. */
  lemma {:induction false} NoCloseDrop(t: string, m: nat)
    requires NoCloseOnLine(t) && m <= |t|
    requires forall k :: 0 <= k < m ==> t[k] != '\n'
    ensures NoCloseOnLine(t[m..])
    decreases m
  {
    if m > 0 {
      assert t[1..][m - 1..] == t[m..];
      forall k | 0 <= k < m - 1 ensures t[1..][k] != '\n' {
        assert t[1..][k] == t[k + 1];
      }
      NoCloseDrop(t[1..], m - 1);
    }
  }

  /** Line 181 brings in no character but the space. */
  lemma {:induction false} RemoveParentheticalChars(s: string)
    ensures forall x :: x in RemoveParenthetical(s) ==> x in s || x == ' '
    decreases |s|
  {
    if s != [] {
      var o := OpenLength(s);
      if o > 0 && CloseEnd(s[o..]) > 0 {
        var m := o + CloseEnd(s[o..]);
        RemoveParentheticalChars(s[m..]);
        assert forall x :: x in s[m..] ==> x in s;
      } else {
        RemoveParentheticalChars(s[1..]);
        assert forall x :: x in s[1..] ==> x in s;
      }
    }
  }

  /** A text with no `(` and no `@` is left as it is. */
  lemma {:induction false} RemoveParentheticalIdentity(s: string)
    requires '(' !in s && '@' !in s
    ensures RemoveParenthetical(s) == s
    decreases |s|
  {
    if s != [] {
      assert s[0] != '(' && s[0] != '@';
      assert OpenLength(s) == 0;
      assert forall x :: x in s[1..] ==> x in s;
      RemoveParentheticalIdentity(s[1..]);
    }
  }

  /** The `.*` is greedy: two parenthesised parts on one line go together
      with the text between them. */
  lemma RemoveParentheticalGreedy()
    ensures RemoveParenthetical("(a)b(c)") == " "
  {
    assert OpenLength("(a)b(c)") == 1;
    assert CloseEnd(")") == 1;
    assert CloseEnd("c)") == 2;
    assert CloseEnd("(c)") == 3;
    assert CloseEnd("b(c)") == 4;
    assert CloseEnd(")b(c)") == 5;
    assert CloseEnd("a)b(c)") == 6;
    assert "(a)b(c)"[1..] == "a)b(c)";
    assert "(a)b(c)"[7..] == "";
  }

  /** A parenthesised part that spans a line break stays. */
  lemma RemoveParentheticalOneLine()
    ensures RemoveParenthetical("(\n)") == "(\n)"
  {
    assert "(\n)"[1..] == "\n)";
    assert CloseEnd("\n)") == 0;
    RemoveParentheticalIdentity("\n)");
  }

  /** The characters of the class `[\-\[\]\{\}]` (line 184). */
  const Separators: set<char> := {'-', '[', ']', '{', '}'}

  /** The characters of the class `[\n\r]` (line 185). */
  const LineBreaks: set<char> := {'\n', '\r'}

  /** Line 184: each run of dashes, brackets and braces becomes one space. */
  function SeparatorsToSpace(s: string): string {
    ReplaceRuns(s, Separators, " ")
  }

  /** Line 185: each run of line breaks becomes `", "`. */
  function BreaksToComma(s: string): string {
    ReplaceRuns(s, LineBreaks, ", ")
  }

  /** Length of the text the regex `^\s*,\s*[^\S]` matches at the start of
      `s`, or 0 when it does not match: leading whitespace, one comma, and
      at least one whitespace character, all of them taken greedily. */
  function LeadingCommaLength(s: string): nat {
    var w := LeadCount(s, Whitespace);
    if w < |s| && s[w] == ',' then
      var v := LeadCount(s[w + 1..], Whitespace);
      if v >= 1 then w + 1 + v else 0
    else 0
  }

  /** Line 191: a leading empty element (whitespace, a comma, whitespace)
      is removed. */
  function DropLeadingComma(s: string): (r: string) {
    s[LeadingCommaLength(s)..]
  }

  /** `s` without its whitespace. */
  function NonSpace(s: string): string {
    if s == [] then [] else (if s[0] in Whitespace then [] else [s[0]]) + NonSpace(s[1..])
  }

  /** `s` starts with whitespace, a comma and a whitespace character. */
  predicate StartsWithEmptyElement(s: string) {
    exists i :: 0 <= i < |s| - 1 && s[i] == ',' && s[i + 1] in Whitespace && AllSpace(s[..i])
  }

  predicate AllSpace(s: string) {
    forall k :: 0 <= k < |s| ==> s[k] in Whitespace
  }

  lemma {:induction false} NonSpaceAppend(a: string, b: string)
    ensures NonSpace(a + b) == NonSpace(a) + NonSpace(b)
    decreases |a|
  {
    if a == [] {
      assert a + b == b;
    } else {
      var ab := a + b;
      assert ab[0] == a[0] && ab[1..] == a[1..] + b;
      NonSpaceAppend(a[1..], b);
      var h := if a[0] in Whitespace then [] else [a[0]];
      assert NonSpace(ab) == h + NonSpace(a[1..] + b);
      assert NonSpace(a) == h + NonSpace(a[1..]);
    }
  }

  lemma NonSpaceOfSpace(s: string)
    requires AllSpace(s)
    ensures NonSpace(s) == []
  {
    if s != [] {
      NonSpaceOfSpace(s[1..]);
    }
  }

  /** What line 191 removes: nothing when `s` does not start with an empty
      element; otherwise a prefix made of whitespace around exactly one
      comma, ending in whitespace and leaving no whitespace at the front. */
  lemma DropLeadingCommaSpec(s: string)
    ensures var r := DropLeadingComma(s); var d := |s| - |r|;
      && r == s[d..]
      && (d == 0 <==> !StartsWithEmptyElement(s))
      && (d > 0 ==> NonSpace(s[..d]) == "," && s[d - 1] in Whitespace
                    && (d == |s| || s[d] !in Whitespace))
  {
    var d := LeadingCommaLength(s);
    LeadingCommaIff(s);
    if d > 0 {
      var w := LeadCount(s, Whitespace);
      CommaRunParts(s, Whitespace);
      BlankSlice(s, 0, w);
      BlankSlice(s, w + 1, d);
      SliceAround(s, w, d);
      NonSpaceAroundComma(s[..w], s[w + 1..d]);
    }
  }

  /** The regex of line 191 matches exactly when `s` starts with an empty
      element. */
  lemma LeadingCommaIff(s: string)
    ensures LeadingCommaLength(s) > 0 <==> StartsWithEmptyElement(s)
  {
    var w := LeadCount(s, Whitespace);
    if LeadingCommaLength(s) > 0 {
      HeadOfSuffix(s, w + 1);
      BlankPrefix(s, w);
      assert 0 <= w < |s| - 1 && s[w] == ',' && s[w + 1] in Whitespace && AllSpace(s[..w]);
    }
    if StartsWithEmptyElement(s) {
      var i :| 0 <= i < |s| - 1 && s[i] == ',' && s[i + 1] in Whitespace && AllSpace(s[..i]);
      LeadCountAt(s, i, Whitespace);
      HeadOfSuffix(s, w + 1);
    }
  }

  lemma HeadOfSuffix(s: string, i: nat)
    requires i < |s|
    ensures s[i..] != [] && s[i..][0] == s[i]
  {
  }

  lemma BlankPrefix(s: string, w: nat)
    requires w <= |s| && forall k :: 0 <= k < w ==> s[k] in Whitespace
    ensures AllSpace(s[..w])
  {
    assert forall k :: 0 <= k < w ==> s[..w][k] == s[k];
  }

  /** A text whose first `i` characters are in `cls` and whose character
      `i` is not has a run of exactly `i` of them at its start. */
  lemma LeadCountAt(s: string, i: nat, cls: set<char>)
    requires i < |s| && s[i] !in cls && forall k :: 0 <= k < i ==> s[..i][k] in cls
    ensures LeadCount(s, cls) == i
  {
    assert forall k :: 0 <= k < i ==> s[..i][k] == s[k];
  }

  /** Where the regex of line 191 matches, it covers blank characters,
      one comma, and at least one blank character, up to the first
      character that is not blank; stated for any class of blank
      characters and used with `Whitespace`. */
  lemma CommaRunParts(s: string, cls: set<char>)
    requires var w := LeadCount(s, cls);
      w < |s| && s[w] == ',' && LeadCount(s[w + 1..], cls) >= 1
    ensures var w := LeadCount(s, cls); var d := w + 1 + LeadCount(s[w + 1..], cls);
      && w + 1 < d <= |s|
      && (forall k :: 0 <= k < w ==> s[k] in cls)
      && (forall k :: w + 1 <= k < d ==> s[k] in cls)
      && (d == |s| || s[d] !in cls)
  {
    var w := LeadCount(s, cls);
    RunAfter(s, w + 1, cls);
  }

  /** The run `LeadCount` measures in a suffix, located in the whole text. */
  lemma RunAfter(s: string, i: nat, cls: set<char>)
    requires i <= |s|
    ensures var v := LeadCount(s[i..], cls);
      && (forall k :: i <= k < i + v ==> s[k] in cls)
      && (i + v == |s| || s[i + v] !in cls)
  {
    var t := s[i..];
    var v := LeadCount(t, cls);
    forall k | i <= k < i + v ensures s[k] in cls {
      assert s[k] == t[k - i];
    }
    if i + v < |s| {
      assert s[i + v] == t[v];
    }
  }

  lemma SliceAround(s: string, w: nat, d: nat)
    requires w < d <= |s|
    ensures s[..d] == s[..w] + [s[w]] + s[w + 1..d]
  {
  }

  /** Whitespace characters at positions `i .. j - 1` make `s[i..j]`
      blank. */
  lemma BlankSlice(s: string, i: nat, j: nat)
    requires i <= j <= |s|
    requires forall k :: i <= k < j ==> s[k] in Whitespace
    ensures AllSpace(s[i..j])
  {
    forall k | 0 <= k < j - i ensures s[i..j][k] in Whitespace {
      assert s[i..j][k] == s[i + k];
    }
  }

  /** Whitespace, a comma and whitespace keep only the comma. */
  lemma NonSpaceAroundComma(a: string, c: string)
    requires AllSpace(a) && AllSpace(c)
    ensures NonSpace(a + [','] + c) == [',']
  {
    NonSpaceOfSpace(a);
    NonSpaceOfSpace(c);
    NonSpaceAppend(a + [','], c);
    NonSpaceAppend(a, [',']);
    assert [','][1..] == [];
  }

  /** The location hint of one row: lines 181, 184, 185 and 191 in order.
      The whitespace factorisation of line 188 is written without
      `inplace=True`, so its result is discarded and it has no effect. */
  function CleanHint(adr: string): string {
    DropLeadingComma(BreaksToComma(SeparatorsToSpace(RemoveParenthetical(adr))))
  }

  /** The cleaned hint holds no dash, bracket, brace or line break. */
  lemma CleanHintHasNoSeparators(adr: string)
    ensures forall x :: x in CleanHint(adr) ==> x !in Separators && x !in LineBreaks
  {
    var a := SeparatorsToSpace(RemoveParenthetical(adr));
    var b := BreaksToComma(a);
    ReplaceRunsChars(RemoveParenthetical(adr), Separators, " ");
    ReplaceRunsChars(a, LineBreaks, ", ");
    assert forall x :: x in ", " ==> x !in Separators && x !in LineBreaks;
    var r := CleanHint(adr);
    assert r == b[LeadingCommaLength(b)..];
    assert forall x :: x in r ==> x in b;
  }

  /** Each maximal run of separators becomes exactly one space: the hint of
      a text cut where no run is split is the hints of the pieces, and a
      whole run is one space. */
  lemma SeparatorRunIsOneSpace(a: string, run: string, b: string)
    requires a == [] || a[|a| - 1] !in Separators
    requires run != [] && forall k :: 0 <= k < |run| ==> run[k] in Separators
    requires b == [] || b[0] !in Separators
    ensures SeparatorsToSpace(a + run + b) == SeparatorsToSpace(a) + " " + SeparatorsToSpace(b)
  {
    assert a + run + b == a + (run + b);
    ReplaceRunsSplice(a, run + b, Separators, " ");
    ReplaceRunsRun(run, b, Separators, " ");
  }

  /** Each maximal run of line breaks becomes exactly one `", "`. */
  lemma BreakRunIsOneComma(a: string, run: string, b: string)
    requires a == [] || a[|a| - 1] !in LineBreaks
    requires run != [] && forall k :: 0 <= k < |run| ==> run[k] in LineBreaks
    requires b == [] || b[0] !in LineBreaks
    ensures BreaksToComma(a + run + b) == BreaksToComma(a) + ", " + BreaksToComma(b)
  {
    assert a + run + b == a + (run + b);
    ReplaceRunsSplice(a, run + b, LineBreaks, ", ");
    ReplaceRunsRun(run, b, LineBreaks, ", ");
  }
}
