/**
 Output normalisation (`normalizeOutput` in useCodeRunner.ts): the printed
 form of a NumPy value is rewritten by four global regular-expression
 replacements so that `[ 6 4 5 9 ]` and `[6 4 5 9]` compare equal. Each
 replacement is modelled by the left-to-right scan the regular-expression
 engine performs.
 */
module Normalize {
  import opened Text

  /** The three rules the normal form imposes on neighbouring characters. */
  datatype Rule = NoDoubleSpace | NoSpaceAfterOpen | NoSpaceBeforeClose

  /** Whether the neighbours `a`, `b` (in that order) obey `rule`. */
  predicate Allowed(rule: Rule, a: char, b: char) {
    match rule
    case NoDoubleSpace => !(IsWs(a) && IsWs(b))
    case NoSpaceAfterOpen => !(a == '[' && IsWs(b))
    case NoSpaceBeforeClose => !(IsWs(a) && b == ']')
  }

  /** Every two neighbouring characters of `s` obey `rule`. */
  predicate Neighbours(s: string, rule: Rule) {
    forall i, j :: 0 <= i < |s| && j == i + 1 && j < |s| ==> Allowed(rule, s[i], s[j])
  }

  /** The plain space is the only whitespace character in `s`. */
  predicate OnlySpaces(s: string) {
    forall i :: 0 <= i < |s| && IsWs(s[i]) ==> s[i] == ' '
  }

  /** The shape every normalised output has: no whitespace at either end,
      whitespace only as single spaces, and no space just inside a bracket. */
  predicate Normal(s: string) {
    && Trimmed(s)
    && OnlySpaces(s)
    && Neighbours(s, NoDoubleSpace)
    && Neighbours(s, NoSpaceAfterOpen)
    && Neighbours(s, NoSpaceBeforeClose)
  }

  /** The characters of `s` that are not whitespace, in order. */
  function Visible(s: string): (r: string)
    ensures |r| <= |s|
    ensures forall i :: 0 <= i < |r| ==> !IsWs(r[i])
  {
    if |s| == 0 then [] else (if IsWs(s[0]) then [] else [s[0]]) + Visible(s[1..])
  }

  /** `s.replace(/\s+/g, ' ')`: every maximal run of whitespace becomes one
      space. */
  function CollapseWhitespace(s: string): (r: string)
    ensures |s| > 0 ==> |r| > 0 && r[0] == (if IsWs(s[0]) then ' ' else s[0])
    decreases |s|
  {
    if |s| == 0 then []
    else if IsWs(s[0]) then
      assert TrimStart(s) == s[|s| - |TrimStart(s)|..];
      [' '] + CollapseWhitespace(TrimStart(s))
    else [s[0]] + CollapseWhitespace(s[1..])
  }

  /** `s.replace(/\s+\]/g, ']')`: a run of whitespace directly followed by a
      closing bracket is dropped. The scan tries each position in turn, so a
      run that is not followed by `]` is kept character by character. */
  function StripSpaceBeforeClose(s: string): (r: string)
    ensures |s| > 0 ==> |r| > 0 && (r[0] == s[0] || (IsWs(s[0]) && r[0] == ']'))
    ensures |s| > 0 ==> r[|r| - 1] == s[|s| - 1]
    decreases |s|
  {
    if |s| == 0 then []
    else if IsWs(s[0]) && |TrimStart(s)| > 0 && TrimStart(s)[0] == ']' then
      assert TrimStart(s) == s[|s| - |TrimStart(s)|..];
      [']'] + StripSpaceBeforeClose(TrimStart(s)[1..])
    else [s[0]] + StripSpaceBeforeClose(s[1..])
  }

  /** `s.replace(/\[\s+/g, '[')`: a run of whitespace directly after an
      opening bracket is dropped. */
  function StripSpaceAfterOpen(s: string): (r: string)
    ensures |s| > 0 ==> |r| > 0 && r[0] == s[0]
    ensures |s| > 0 && !IsWs(s[|s| - 1]) ==> |r| > 0 && r[|r| - 1] == s[|s| - 1]
    decreases |s|
  {
    if |s| == 0 then []
    else if s[0] == '[' && |s| > 1 && IsWs(s[1]) then
      assert TrimStart(s[1..]) == s[1..][|s| - 1 - |TrimStart(s[1..])|..];
      ['['] + StripSpaceAfterOpen(TrimStart(s[1..]))
    else [s[0]] + StripSpaceAfterOpen(s[1..])
  }

  /** `normalizeOutput`: collapse whitespace, trim, then strip spaces next to
      brackets. The result has the normal shape and keeps every visible
      character of the input, in order. */
  function NormalizeOutput(s: string): (r: string)
    ensures Normal(r)
    ensures Visible(r) == Visible(s)
  {
    NormalizeShape(s);
    NormalizeVisible(s);
    StripSpaceAfterOpen(StripSpaceBeforeClose(Trim(CollapseWhitespace(s))))
  }

  lemma NormalizeShape(s: string)
    ensures Normal(StripSpaceAfterOpen(StripSpaceBeforeClose(Trim(CollapseWhitespace(s)))))
  {
    var trimmed := Trim(CollapseWhitespace(s));
    var closed := StripSpaceBeforeClose(trimmed);
    TrimmedCollapseShape(s);
    CloseGuard(trimmed);
    CloseKeeps(trimmed);
    assert Trimmed(closed);
    OpenGuard(closed);
    OpenKeeps(closed);
    OpenKeepsCloseRule(closed);
  }

  lemma TrimmedCollapseShape(s: string)
    ensures OnlySpaces(Trim(CollapseWhitespace(s)))
    ensures Neighbours(Trim(CollapseWhitespace(s)), NoDoubleSpace)
  {
    CollapseShape(s);
    TrimShape(CollapseWhitespace(s));
  }

  /** Trimming collapsed text leaves it collapsed. */
  lemma TrimShape(c: string)
    requires OnlySpaces(c) && Neighbours(c, NoDoubleSpace)
    ensures OnlySpaces(Trim(c)) && Neighbours(Trim(c), NoDoubleSpace)
  {
    TrimSlice(c);
    ShapeOfSlice(c, Trim(c), |c| - |TrimStart(c)|);
  }

  /** A slice of collapsed text is collapsed text. */
  lemma ShapeOfSlice(c: string, t: string, k: nat)
    requires OnlySpaces(c) && Neighbours(c, NoDoubleSpace)
    requires k + |t| <= |c| && t == c[k..k + |t|]
    ensures OnlySpaces(t) && Neighbours(t, NoDoubleSpace)
  {
    OnlySpacesSlice(c, k, k + |t|);
    NeighboursSlice(c, k, k + |t|, NoDoubleSpace);
  }

  lemma NormalizeVisible(s: string)
    ensures Visible(StripSpaceAfterOpen(StripSpaceBeforeClose(Trim(CollapseWhitespace(s))))) == Visible(s)
  {
    var collapsed := CollapseWhitespace(s);
    var trimmed := Trim(collapsed);
    CollapseVisible(s);
    VisibleTrim(collapsed);
    CloseVisible(trimmed);
    OpenVisible(StripSpaceBeforeClose(trimmed));
  }

  /** A normal string is left as it is by normalisation. */
  lemma NormalIsFixed(s: string)
    requires Normal(s)
    ensures NormalizeOutput(s) == s
  {
    CollapseFixes(s);
    TrimOfTrimmed(s);
    CloseFixes(s);
    OpenFixes(s);
  }

  /** Normalising twice is normalising once. */
  lemma NormalizeIdempotent(s: string)
    ensures NormalizeOutput(NormalizeOutput(s)) == NormalizeOutput(s)
  {
    NormalIsFixed(NormalizeOutput(s));
  }

  /** NumPy prints a vector either with or without a space just inside each
      bracket; both spellings normalise to the one without. */
  lemma BracketPaddingIgnored(x: string)
    requires |x| > 0 && Normal("[" + x + "]")
    ensures NormalizeOutput("[ " + x + " ]") == NormalizeOutput("[" + x + "]") == "[" + x + "]"
  {
    BracketedParts(x);
    PaddedUntouched(x);
    PaddedClose(x);
    if x[0] == ']' {
      OpenFixes("[" + x + "]");
    } else {
      PaddedOpen(x);
    }
    NormalIsFixed("[" + x + "]");
  }

  /** The spellings `[ 6 4 5 9 ]` and `[6 4 5 9]` of one printed vector. */
  lemma FourValues(x: string)
    requires x == "6 4 5 9"
    ensures NormalizeOutput("[ " + x + " ]") == NormalizeOutput("[" + x + "]") == "[" + x + "]"
  {
    FourValuesNormal(x);
    BracketPaddingIgnored(x);
  }

  lemma FourValuesNormal(x: string)
    requires x == "6 4 5 9"
    ensures Normal("[" + x + "]")
  {
    var t := "[" + x + "]";
    assert forall i :: 0 <= i < |t| ==> t[i] in "[]64 59";
  }

  /** `outputsMatch` up to its numeric branch. The program compares the
      normalised expected text with the normalised whole output and with the
      normalised first line of the output; when neither is equal it parses
      both sides as floating-point numbers, which is passed in here as
      `numericClose` and applied to the same normalised texts. */
  function OutputsMatch(userOut: string, expected: string, numericClose: (string, string) -> bool): bool {
    var expectedNorm := NormalizeOutput(expected);
    var userNorm := NormalizeOutput(FirstLine(userOut));
    var userFullNorm := NormalizeOutput(userOut);
    userFullNorm == expectedNorm || userNorm == expectedNorm || numericClose(userNorm, expectedNorm)
  }

  /** A numeric comparison that never succeeds: with it `OutputsMatch` is
      the purely textual comparison. */
  predicate NoNumericMatch(a: string, b: string) {
    false
  }

  /** Every output matches itself. */
  lemma OutputsMatchSelf(s: string, numericClose: (string, string) -> bool)
    ensures OutputsMatch(s, s, numericClose)
  {
  }

  /** A printed vector matches the other NumPy spelling of itself, in both
      directions. */
  lemma OutputsMatchPadded(x: string, numericClose: (string, string) -> bool)
    requires |x| > 0 && Normal("[" + x + "]")
    ensures OutputsMatch("[ " + x + " ]", "[" + x + "]", numericClose)
    ensures OutputsMatch("[" + x + "]", "[ " + x + " ]", numericClose)
  {
    BracketPaddingIgnored(x);
  }

  /** Normalising the expected text first changes nothing. */
  lemma {:induction false} OutputsMatchNormalizedExpected(userOut: string, expected: string, numericClose: (string, string) -> bool)
    ensures OutputsMatch(userOut, NormalizeOutput(expected), numericClose) == OutputsMatch(userOut, expected, numericClose)
  {
    NormalizeIdempotent(expected);
  }

  /** Only the first line of the output counts once it matches: whatever is
      printed after the first line break is ignored. */
  lemma {:induction false} OutputsMatchIgnoresLaterLines(line: string, rest: string, expected: string, numericClose: (string, string) -> bool)
    requires '\n' !in line
    requires NormalizeOutput(line) == NormalizeOutput(expected)
    ensures OutputsMatch(line + "\r\n" + rest, expected, numericClose)
    ensures |line| == 0 || line[|line| - 1] != '\r' ==> OutputsMatch(line + "\n" + rest, expected, numericClose)
  {
    FirstLineBeforeBreak(line, rest);
  }

  /** A textual match never hides a visible difference: the expected text and
      the whole output, or its first line, have the same characters once
      whitespace is ignored. */
  lemma TextualMatchSameVisible(userOut: string, expected: string)
    requires OutputsMatch(userOut, expected, NoNumericMatch)
    ensures Visible(userOut) == Visible(expected) || Visible(FirstLine(userOut)) == Visible(expected)
  {
  }

  // ---------------------------------------------------------------------
  // Neighbour and slice facts

  lemma NeighboursCons(c: char, t: string, rule: Rule)
    ensures Neighbours([c] + t, rule) <==> (|t| > 0 ==> Allowed(rule, c, t[0])) && Neighbours(t, rule)
  {
    var s := [c] + t;
    if Neighbours(t, rule) && (|t| > 0 ==> Allowed(rule, c, t[0])) {
      forall i | 0 <= i < |s| - 1
        ensures Allowed(rule, s[i], s[i + 1])
      {
        if i > 0 {
          assert s[i] == t[i - 1] && s[i + 1] == t[i];
        }
      }
    }
    if Neighbours(s, rule) {
      if |t| > 0 {
        assert s[0] == c && s[1] == t[0];
      }
      forall i | 0 <= i < |t| - 1
        ensures Allowed(rule, t[i], t[i + 1])
      {
        assert s[i + 1] == t[i] && s[i + 2] == t[i + 1];
      }
    }
  }

  lemma NeighboursSlice(s: string, k: nat, m: nat, rule: Rule)
    requires k <= m <= |s|
    requires Neighbours(s, rule)
    ensures Neighbours(s[k..m], rule)
  {
    var t := s[k..m];
    forall i | 0 <= i < |t| - 1
      ensures Allowed(rule, t[i], t[i + 1])
    {
      assert t[i] == s[k + i] && t[i + 1] == s[k + i + 1];
    }
  }

  lemma OnlySpacesCons(c: char, t: string)
    ensures OnlySpaces([c] + t) <==> (IsWs(c) ==> c == ' ') && OnlySpaces(t)
  {
    var s := [c] + t;
    assert s[0] == c;
    if OnlySpaces(s) {
      forall i | 0 <= i < |t| && IsWs(t[i])
        ensures t[i] == ' '
      {
        assert s[i + 1] == t[i];
      }
    }
    if (IsWs(c) ==> c == ' ') && OnlySpaces(t) {
      forall i | 0 <= i < |s| && IsWs(s[i])
        ensures s[i] == ' '
      {
        if i > 0 {
          assert s[i] == t[i - 1];
        }
      }
    }
  }

  lemma OnlySpacesSlice(s: string, k: nat, m: nat)
    requires k <= m <= |s|
    requires OnlySpaces(s)
    ensures OnlySpaces(s[k..m])
  {
  }

  // ---------------------------------------------------------------------
  // Visible characters

  lemma {:induction false} VisibleConcat(a: string, b: string)
    ensures Visible(a + b) == Visible(a) + Visible(b)
    decreases |a|
  {
    if |a| > 0 {
      assert (a + b)[1..] == a[1..] + b;
      VisibleConcat(a[1..], b);
    } else {
      assert a + b == b;
    }
  }

  lemma {:induction false} VisibleOfWs(w: string)
    requires AllWs(w)
    ensures Visible(w) == []
    decreases |w|
  {
    if |w| > 0 {
      VisibleOfWs(w[1..]);
    }
  }

  lemma {:induction false} VisibleTrimStart(s: string)
    ensures Visible(TrimStart(s)) == Visible(s)
    decreases |s|
  {
    if |s| > 0 && IsWs(s[0]) {
      VisibleTrimStart(s[1..]);
    }
  }

  lemma VisibleTrim(s: string)
    ensures Visible(Trim(s)) == Visible(s)
  {
    var t := TrimStart(s);
    var r := TrimEnd(t);
    assert t == r + t[|r|..];
    VisibleConcat(r, t[|r|..]);
    VisibleOfWs(t[|r|..]);
    VisibleTrimStart(s);
  }

  // ---------------------------------------------------------------------
  // Collapsing whitespace

  lemma {:induction false} CollapseShape(s: string)
    ensures OnlySpaces(CollapseWhitespace(s))
    ensures Neighbours(CollapseWhitespace(s), NoDoubleSpace)
    decreases |s|
  {
    if |s| > 0 {
      var t := if IsWs(s[0]) then TrimStart(s) else s[1..];
      assert IsWs(s[0]) ==> TrimStart(s) == s[|s| - |TrimStart(s)|..];
      CollapseShape(t);
      var r := CollapseWhitespace(s);
      assert r == [r[0]] + CollapseWhitespace(t);
      NeighboursCons(r[0], CollapseWhitespace(t), NoDoubleSpace);
    }
  }

  lemma {:induction false} CollapseVisible(s: string)
    ensures Visible(CollapseWhitespace(s)) == Visible(s)
    decreases |s|
  {
    if |s| > 0 {
      var r := CollapseWhitespace(s);
      if IsWs(s[0]) {
        var t := TrimStart(s);
        assert t == s[|s| - |t|..];
        CollapseVisible(t);
        VisibleTrimStart(s);
        assert r[1..] == CollapseWhitespace(t);
      } else {
        CollapseVisible(s[1..]);
        assert r[1..] == CollapseWhitespace(s[1..]);
      }
    }
  }

  lemma {:induction false} CollapseFixes(s: string)
    requires OnlySpaces(s) && Neighbours(s, NoDoubleSpace)
    ensures CollapseWhitespace(s) == s
    decreases |s|
  {
    if |s| > 0 {
      NeighboursSlice(s, 1, |s|, NoDoubleSpace);
      CollapseFixes(s[1..]);
      if IsWs(s[0]) {
        assert TrimStart(s) == TrimStart(s[1..]) == s[1..];
      }
      HeadTail(s);
    }
  }

  // ---------------------------------------------------------------------
  // Dropping whitespace before `]`

  lemma {:induction false} CloseGuard(s: string)
    ensures Neighbours(StripSpaceBeforeClose(s), NoSpaceBeforeClose)
    decreases |s|
  {
    if |s| > 0 {
      var r := StripSpaceBeforeClose(s);
      var t := TrimStart(s);
      if IsWs(s[0]) && |t| > 0 && t[0] == ']' {
        assert t == s[|s| - |t|..];
        CloseGuard(t[1..]);
        assert r == [']'] + StripSpaceBeforeClose(t[1..]);
        NeighboursCons(']', StripSpaceBeforeClose(t[1..]), NoSpaceBeforeClose);
      } else {
        CloseGuard(s[1..]);
        assert r == [s[0]] + StripSpaceBeforeClose(s[1..]);
        assert IsWs(s[0]) && |s| > 1 ==> TrimStart(s) == TrimStart(s[1..]);
        NeighboursCons(s[0], StripSpaceBeforeClose(s[1..]), NoSpaceBeforeClose);
      }
    }
  }

  lemma {:induction false} CloseKeeps(s: string)
    requires OnlySpaces(s) && Neighbours(s, NoDoubleSpace)
    ensures OnlySpaces(StripSpaceBeforeClose(s))
    ensures Neighbours(StripSpaceBeforeClose(s), NoDoubleSpace)
    decreases |s|
  {
    if |s| > 0 {
      var r := StripSpaceBeforeClose(s);
      var t := TrimStart(s);
      if IsWs(s[0]) && |t| > 0 && t[0] == ']' {
        var k := |s| - |t| + 1;
        assert t[1..] == s[k..] by {
          assert t == s[|s| - |t|..];
        }
        NeighboursSlice(s, k, |s|, NoDoubleSpace);
        OnlySpacesSlice(s, k, |s|);
        assert s[k..|s|] == s[k..];
        CloseKeeps(s[k..]);
        var rest := StripSpaceBeforeClose(s[k..]);
        assert r == [']'] + rest;
        NeighboursCons(']', rest, NoDoubleSpace);
        OnlySpacesCons(']', rest);
      } else {
        NeighboursSlice(s, 1, |s|, NoDoubleSpace);
        OnlySpacesSlice(s, 1, |s|);
        assert s[1..|s|] == s[1..];
        CloseKeeps(s[1..]);
        var rest := StripSpaceBeforeClose(s[1..]);
        assert r == [s[0]] + rest;
        assert IsWs(s[0]) ==> s[0] == ' ';
        if IsWs(s[0]) && |s| > 1 {
          assert Allowed(NoDoubleSpace, s[0], s[1]);
          assert rest[0] == s[1];
        }
        NeighboursCons(s[0], rest, NoDoubleSpace);
        OnlySpacesCons(s[0], rest);
      }
    }
  }

  lemma {:induction false} CloseVisible(s: string)
    ensures Visible(StripSpaceBeforeClose(s)) == Visible(s)
    decreases |s|
  {
    if |s| > 0 {
      var r := StripSpaceBeforeClose(s);
      var t := TrimStart(s);
      if IsWs(s[0]) && |t| > 0 && t[0] == ']' {
        assert t == s[|s| - |t|..];
        CloseVisible(t[1..]);
        VisibleTrimStart(s);
        assert r[1..] == StripSpaceBeforeClose(t[1..]);
      } else {
        CloseVisible(s[1..]);
        assert r[1..] == StripSpaceBeforeClose(s[1..]);
      }
    }
  }

  lemma {:induction false} CloseFixes(s: string)
    requires Neighbours(s, NoSpaceBeforeClose)
    ensures StripSpaceBeforeClose(s) == s
    decreases |s|
  {
    if |s| > 0 {
      var t := TrimStart(s);
      assert !(IsWs(s[0]) && |t| > 0 && t[0] == ']') by {
        if IsWs(s[0]) && |t| > 0 {
          var k := |s| - |t|;
          assert t == s[k..];
          assert 1 <= k && IsWs(s[..k][k - 1]);
          assert Allowed(NoSpaceBeforeClose, s[k - 1], s[k]);
        }
      }
      NeighboursSlice(s, 1, |s|, NoSpaceBeforeClose);
      assert s[1..|s|] == s[1..];
      CloseFixes(s[1..]);
      HeadTail(s);
    }
  }

  // ---------------------------------------------------------------------
  // Dropping whitespace after `[`

  lemma {:induction false} OpenGuard(s: string)
    ensures Neighbours(StripSpaceAfterOpen(s), NoSpaceAfterOpen)
    decreases |s|
  {
    if |s| > 0 {
      var r := StripSpaceAfterOpen(s);
      var k := if s[0] == '[' && |s| > 1 && IsWs(s[1]) then |s| - |TrimStart(s[1..])| else 1;
      assert s[0] == '[' && |s| > 1 && IsWs(s[1]) ==> TrimStart(s[1..]) == s[k..];
      OpenGuard(s[k..]);
      assert r == [s[0]] + StripSpaceAfterOpen(s[k..]);
      NeighboursCons(s[0], StripSpaceAfterOpen(s[k..]), NoSpaceAfterOpen);
    }
  }

  /** Where the scan of `StripSpaceAfterOpen` resumes after its first step. */
  lemma OpenResume(s: string) returns (k: nat)
    requires |s| > 0
    ensures 1 <= k <= |s|
    ensures StripSpaceAfterOpen(s) == [s[0]] + StripSpaceAfterOpen(s[k..])
    ensures k > 1 ==> s[0] == '['
    ensures IsWs(s[0]) ==> k == 1
  {
    if s[0] == '[' && |s| > 1 && IsWs(s[1]) {
      k := |s| - |TrimStart(s[1..])|;
      assert TrimStart(s[1..]) == s[k..];
    } else {
      k := 1;
    }
  }

  lemma {:induction false} OpenKeeps(s: string)
    requires OnlySpaces(s) && Neighbours(s, NoDoubleSpace)
    ensures OnlySpaces(StripSpaceAfterOpen(s))
    ensures Neighbours(StripSpaceAfterOpen(s), NoDoubleSpace)
    decreases |s|
  {
    if |s| > 0 {
      var k := OpenResume(s);
      NeighboursSlice(s, k, |s|, NoDoubleSpace);
      OnlySpacesSlice(s, k, |s|);
      assert s[k..|s|] == s[k..];
      OpenKeeps(s[k..]);
      var rest := StripSpaceAfterOpen(s[k..]);
      assert IsWs(s[0]) ==> s[0] == ' ';
      if IsWs(s[0]) && |s| > 1 {
        assert Allowed(NoDoubleSpace, s[0], s[1]);
        assert rest[0] == s[1];
      }
      NeighboursCons(s[0], rest, NoDoubleSpace);
      OnlySpacesCons(s[0], rest);
    }
  }

  lemma {:induction false} OpenKeepsCloseRule(s: string)
    requires Neighbours(s, NoSpaceBeforeClose)
    ensures Neighbours(StripSpaceAfterOpen(s), NoSpaceBeforeClose)
    decreases |s|
  {
    if |s| > 0 {
      var k := OpenResume(s);
      NeighboursSlice(s, k, |s|, NoSpaceBeforeClose);
      assert s[k..|s|] == s[k..];
      OpenKeepsCloseRule(s[k..]);
      var rest := StripSpaceAfterOpen(s[k..]);
      if IsWs(s[0]) && |s| > 1 {
        assert Allowed(NoSpaceBeforeClose, s[0], s[1]);
        assert rest[0] == s[1];
      }
      NeighboursCons(s[0], rest, NoSpaceBeforeClose);
    }
  }

  lemma {:induction false} OpenVisible(s: string)
    ensures Visible(StripSpaceAfterOpen(s)) == Visible(s)
    decreases |s|
  {
    if |s| > 0 {
      var r := StripSpaceAfterOpen(s);
      if s[0] == '[' && |s| > 1 && IsWs(s[1]) {
        var t := TrimStart(s[1..]);
        assert t == s[1..][|s| - 1 - |t|..];
        OpenVisible(t);
        VisibleTrimStart(s[1..]);
        assert r[1..] == StripSpaceAfterOpen(t);
      } else {
        OpenVisible(s[1..]);
        assert r[1..] == StripSpaceAfterOpen(s[1..]);
      }
    }
  }

  lemma {:induction false} OpenFixes(s: string)
    requires Neighbours(s, NoSpaceAfterOpen)
    ensures StripSpaceAfterOpen(s) == s
    decreases |s|
  {
    if |s| > 0 {
      assert !(s[0] == '[' && |s| > 1 && IsWs(s[1])) by {
        if |s| > 1 {
          assert Allowed(NoSpaceAfterOpen, s[0], s[1]);
        }
      }
      NeighboursSlice(s, 1, |s|, NoSpaceAfterOpen);
      OpenFixes(s[1..]);
      HeadTail(s);
    }
  }

  // ---------------------------------------------------------------------
  // Vectors with and without padding inside the brackets

  /** `StripSpaceBeforeClose` works run by run: a text that ends in a visible
      character can be scanned on its own and the rest scanned after it. */
  lemma {:induction false} CloseConcat(a: string, b: string)
    requires |a| == 0 || !IsWs(a[|a| - 1])
    ensures StripSpaceBeforeClose(a + b) == StripSpaceBeforeClose(a) + StripSpaceBeforeClose(b)
    decreases |a|
  {
    if |a| == 0 {
      assert a + b == b;
    } else {
      var k := CloseFirstStep(a, b);
      LastOfSuffix(a, k);
      CloseConcat(a[k..], b);
      JoinStep(StripSpaceBeforeClose(a)[0], StripSpaceBeforeClose(a[k..]), StripSpaceBeforeClose(b),
        StripSpaceBeforeClose(a), StripSpaceBeforeClose(a + b));
    }
  }

  lemma LastOfSuffix(a: string, k: nat)
    requires k <= |a|
    ensures |a[k..]| == 0 || a[k..][|a[k..]| - 1] == a[|a| - 1]
  {
  }

  /** Reassembles a scan whose first step is shared: `h` then the rest. */
  lemma JoinStep(h: char, ra: string, rb: string, whole: string, joined: string)
    requires whole == [h] + ra
    requires joined == [h] + (ra + rb)
    ensures joined == whole + rb
  {
  }

  /** The first step of `StripSpaceBeforeClose` on `a + b` is the first step
      on `a`, when `a` ends in a visible character. */
  lemma CloseFirstStep(a: string, b: string) returns (k: nat)
    requires |a| > 0 && !IsWs(a[|a| - 1])
    ensures 1 <= k <= |a|
    ensures |StripSpaceBeforeClose(a)| > 0
    ensures StripSpaceBeforeClose(a) == [StripSpaceBeforeClose(a)[0]] + StripSpaceBeforeClose(a[k..])
    ensures StripSpaceBeforeClose(a + b) == [StripSpaceBeforeClose(a)[0]] + StripSpaceBeforeClose(a[k..] + b)
  {
    var t := TrimStart(a);
    if IsWs(a[0]) && t[0] == ']' {
      k := CloseDropStep(a, b);
    } else {
      k := 1;
      CloseKeepStep(a, b);
    }
  }

  lemma CloseDropStep(a: string, b: string) returns (k: nat)
    requires |a| > 0 && IsWs(a[0]) && |TrimStart(a)| > 0 && TrimStart(a)[0] == ']'
    ensures 1 <= k <= |a|
    ensures StripSpaceBeforeClose(a) == [']'] + StripSpaceBeforeClose(a[k..])
    ensures StripSpaceBeforeClose(a + b) == [']'] + StripSpaceBeforeClose(a[k..] + b)
  {
    var t := TrimStart(a);
    k := |a| - |t| + 1;
    assert t[1..] == a[k..];
    TrimStartKeepsTail(a, b);
    assert (a + b)[0] == a[0];
    assert (t + b)[1..] == a[k..] + b;
  }

  lemma CloseKeepStep(a: string, b: string)
    requires |a| > 0 && !IsWs(a[|a| - 1])
    requires !(IsWs(a[0]) && TrimStart(a)[0] == ']')
    ensures StripSpaceBeforeClose(a) == [a[0]] + StripSpaceBeforeClose(a[1..])
    ensures StripSpaceBeforeClose(a + b) == [a[0]] + StripSpaceBeforeClose(a[1..] + b)
  {
    assert (a + b)[0] == a[0];
    assert (a + b)[1..] == a[1..] + b;
    if IsWs(a[0]) {
      TrimStartKeepsTail(a, b);
    }
  }

  lemma CloseDropsPad()
    ensures StripSpaceBeforeClose(" ]") == "]"
  {
    assert " ]"[1..] == "]";
    assert TrimStart(" ]") == "]";
    assert "]"[1..] == "";
  }

  /** What `Normal("[" + x + "]")` says about the inside `x`. */
  lemma BracketedParts(x: string)
    requires |x| > 0 && Normal("[" + x + "]")
    ensures !IsWs(x[0]) && !IsWs(x[|x| - 1])
    ensures OnlySpaces(x)
    ensures Neighbours(x, NoDoubleSpace) && Neighbours(x, NoSpaceBeforeClose)
    ensures Neighbours(x + "]", NoSpaceAfterOpen)
  {
    var p := "[" + x + "]";
    assert p[0] == '[' && p[1] == x[0];
    assert Allowed(NoSpaceAfterOpen, p[0], p[1]);
    assert p[|p| - 2] == x[|x| - 1] && p[|p| - 1] == ']';
    assert Allowed(NoSpaceBeforeClose, p[|p| - 2], p[|p| - 1]);
    assert p[1..|p| - 1] == x;
    assert p[1..|p|] == x + "]";
    OnlySpacesSlice(p, 1, |p| - 1);
    NeighboursSlice(p, 1, |p| - 1, NoDoubleSpace);
    NeighboursSlice(p, 1, |p| - 1, NoSpaceBeforeClose);
    NeighboursSlice(p, 1, |p|, NoSpaceAfterOpen);
  }

  /** A single space before a final `]` is dropped, and nothing else is. */
  lemma CloseBeforePad(y: string)
    requires |y| > 0 && !IsWs(y[|y| - 1]) && Neighbours(y, NoSpaceBeforeClose)
    ensures StripSpaceBeforeClose(y + " ]") == y + "]"
  {
    CloseConcat(y, " ]");
    CloseFixes(y);
    CloseDropsPad();
  }

  /** `"[ " + x + " ]"` already has single spaces only, so collapsing
      whitespace and trimming leave it alone. */
  lemma PaddedUntouched(x: string)
    requires |x| > 0 && !IsWs(x[0]) && !IsWs(x[|x| - 1])
    requires OnlySpaces(x) && Neighbours(x, NoDoubleSpace)
    ensures Trim(CollapseWhitespace("[ " + x + " ]")) == "[ " + x + " ]"
  {
    var t := x + " ]";
    var s := "[ " + x + " ]";
    PadTail();
    NeighboursConcat(x, " ]", NoDoubleSpace);
    OnlySpacesConcat(x, " ]");
    assert t[0] == x[0];
    NeighboursCons(' ', t, NoDoubleSpace);
    OnlySpacesCons(' ', t);
    NeighboursCons('[', [' '] + t, NoDoubleSpace);
    OnlySpacesCons('[', [' '] + t);
    PaddedSplit(x);
    CollapseFixes(s);
    assert s[0] == '[' && s[|s| - 1] == ']';
    TrimOfTrimmed(s);
  }

  lemma PadTail()
    ensures OnlySpaces(" ]") && Neighbours(" ]", NoDoubleSpace)
  {
    NeighboursCons(' ', "]", NoDoubleSpace);
    OnlySpacesCons(' ', "]");
    assert [' '] + "]" == " ]";
  }

  /** Two texts that obey `rule` and meet where it holds give a text that
      obeys it. */
  lemma NeighboursConcat(a: string, b: string, rule: Rule)
    requires Neighbours(a, rule) && Neighbours(b, rule)
    requires |a| > 0 && |b| > 0 && Allowed(rule, a[|a| - 1], b[0])
    ensures Neighbours(a + b, rule)
  {
    var s := a + b;
    forall i, j | 0 <= i < |s| && j == i + 1 && j < |s|
      ensures Allowed(rule, s[i], s[j])
    {
      if j < |a| {
        assert s[i] == a[i] && s[j] == a[j];
      } else if i >= |a| {
        assert s[i] == b[i - |a|] && s[j] == b[j - |a|];
      } else {
        assert s[i] == a[|a| - 1] && s[j] == b[0];
      }
    }
  }

  lemma OnlySpacesConcat(a: string, b: string)
    requires OnlySpaces(a) && OnlySpaces(b)
    ensures OnlySpaces(a + b)
  {
    var s := a + b;
    forall i | 0 <= i < |s| && IsWs(s[i])
      ensures s[i] == ' '
    {
      if i < |a| {
        assert s[i] == a[i];
      } else {
        assert s[i] == b[i - |a|];
      }
    }
  }

  /** A visible character other than whitespace is copied by the scan. */
  lemma CloseCons(c: char, u: string)
    requires !IsWs(c)
    ensures StripSpaceBeforeClose([c] + u) == [c] + StripSpaceBeforeClose(u)
  {
    assert ([c] + u)[1..] == u;
  }

  /** One space before a visible character: dropped before `]`, kept
      otherwise. */
  lemma CloseSpaceCons(y: string)
    requires |y| > 0 && !IsWs(y[0])
    ensures y[0] == ']' ==> StripSpaceBeforeClose([' '] + y) == [']'] + StripSpaceBeforeClose(y[1..])
    ensures y[0] != ']' ==> StripSpaceBeforeClose([' '] + y) == [' '] + StripSpaceBeforeClose(y)
  {
    var u := [' '] + y;
    assert u[1..] == y;
    assert TrimStart(u) == y;
  }

  lemma PaddedClose(x: string)
    requires |x| > 0 && !IsWs(x[0]) && !IsWs(x[|x| - 1]) && Neighbours(x, NoSpaceBeforeClose)
    ensures x[0] == ']' ==> StripSpaceBeforeClose("[ " + x + " ]") == "[" + x + "]"
    ensures x[0] != ']' ==> StripSpaceBeforeClose("[ " + x + " ]") == "[ " + x + "]"
  {
    var y := x + " ]";
    PaddedSplit(x);
    CloseCons('[', [' '] + y);
    CloseSpaceCons(y);
    if x[0] == ']' {
      PaddedCloseTail(x);
      PaddedJoin(x);
    } else {
      CloseBeforePad(x);
      PaddedJoin(x);
    }
  }

  lemma PaddedCloseTail(x: string)
    requires |x| > 0 && !IsWs(x[|x| - 1]) && Neighbours(x, NoSpaceBeforeClose)
    ensures StripSpaceBeforeClose((x + " ]")[1..]) == x[1..] + "]"
  {
    if |x| == 1 {
      assert (x + " ]")[1..] == " ]";
      CloseDropsPad();
    } else {
      assert (x + " ]")[1..] == x[1..] + " ]";
      NeighboursSlice(x, 1, |x|, NoSpaceBeforeClose);
      assert x[1..|x|] == x[1..];
      CloseBeforePad(x[1..]);
    }
  }

  lemma PaddedSplit(x: string)
    ensures "[ " + x + " ]" == ['['] + ([' '] + (x + " ]"))
  {
  }

  lemma PaddedJoin(x: string)
    requires |x| > 0
    ensures x[0] == ']' ==> ['['] + ([']'] + (x[1..] + "]")) == "[" + x + "]"
    ensures ['['] + ([' '] + (x + "]")) == "[ " + x + "]"
  {
  }

  lemma PaddedOpen(x: string)
    requires |x| > 0 && !IsWs(x[0]) && Neighbours(x + "]", NoSpaceAfterOpen)
    ensures StripSpaceAfterOpen("[ " + x + "]") == "[" + x + "]"
  {
    PaddedJoin(x);
    OpenSpaceCons(x + "]");
    OpenFixes(x + "]");
    OpenJoin(x);
  }

  /** One space after `[` is dropped. */
  lemma OpenSpaceCons(y: string)
    requires |y| > 0 && !IsWs(y[0])
    ensures StripSpaceAfterOpen(['['] + ([' '] + y)) == ['['] + StripSpaceAfterOpen(y)
  {
    var q := ['['] + ([' '] + y);
    assert q[0] == '[' && q[1] == ' ' && q[1..] == [' '] + y;
    assert ([' '] + y)[1..] == y;
    TrimStartSkips([' '], y);
    assert TrimStart(q[1..]) == y;
  }

  lemma OpenJoin(x: string)
    ensures ['['] + (x + "]") == "[" + x + "]"
  {
  }
}
