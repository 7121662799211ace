/**
 The words of a text, its maximal runs of non-whitespace characters: an
 independent description of what `normalizeOutput` keeps. Normalising is
 exactly writing the words out separated by single spaces, except that no
 space follows a word ending in `[` or precedes a word starting with `]`. So a
 whitespace run between two words survives as one space and disappears only
 next to a bracket.
 */
module Words {
  import opened Text
  import opened Normalize

  /** `w` is a word: non-empty and free of whitespace. */
  predicate IsWord(w: string) {
    |w| > 0 && forall i :: 0 <= i < |w| ==> !IsWs(w[i])
  }

  /** The length of the run of non-whitespace characters that `s` starts
      with. */
  function WordLen(s: string): (n: nat)
    ensures n <= |s| && (n < |s| ==> IsWs(s[n]))
    ensures forall i :: 0 <= i < n ==> !IsWs(s[i])
  {
    if |s| > 0 && !IsWs(s[0]) then 1 + WordLen(s[1..]) else 0
  }

  /** The words of `s`, in order. */
  function WordsOf(s: string): (ws: seq<string>)
    decreases |s|
  {
    if |s| == 0 then []
    else if IsWs(s[0]) then WordsOf(s[1..])
    else [s[..WordLen(s)]] + WordsOf(s[WordLen(s)..])
  }

  /** Every word found is a word. */
  lemma {:induction false} WordsAreWords(s: string)
    ensures forall k :: 0 <= k < |WordsOf(s)| ==> IsWord(WordsOf(s)[k])
    decreases |s|
  {
    if |s| > 0 {
      if IsWs(s[0]) {
        WordsAreWords(s[1..]);
      } else {
        WordsAreWords(s[WordLen(s)..]);
      }
    }
  }

  /** The words written out with one space between neighbours. */
  function JoinWords(ws: seq<string>): string {
    if |ws| == 0 then ""
    else if |ws| == 1 then ws[0]
    else ws[0] + " " + JoinWords(ws[1..])
  }

  // ---------------------------------------------------------------------
  // Normalising keeps the words and separates them by single spaces

  /** On text without brackets, `normalizeOutput` writes the words of the
      text out, separated by single spaces. */
  lemma NormalizeJoinsWords(s: string)
    requires '[' !in s && ']' !in s
    ensures NormalizeOutput(s) == JoinWords(WordsOf(s))
  {
    var t := Trim(CollapseWhitespace(s));
    NormalizeKeepsWords(s);
    TrimmedCollapseShape(s);
    NormalJoinsWords(t);
  }

  /** On text without brackets, `normalizeOutput` keeps the words. */
  lemma NormalizeKeepsWords(s: string)
    requires '[' !in s && ']' !in s
    ensures NormalizeOutput(s) == Trim(CollapseWhitespace(s))
    ensures WordsOf(NormalizeOutput(s)) == WordsOf(s)
  {
    var x := CollapseWhitespace(s);
    var t := Trim(x);
    CollapseOutside(s, '[');
    CollapseOutside(s, ']');
    TrimOutside(x, '[');
    TrimOutside(x, ']');
    NoBracketsFixed(t);
    WordsOfTrim(x);
    CollapseWords(s);
  }

  /** Two outputs without brackets normalise to the same text exactly when
      they have the same words: `"a b"` and `"a\tb"` match, `"ab"` does not
      match either. */
  lemma SameNormalIffSameWords(a: string, b: string)
    requires '[' !in a && ']' !in a && '[' !in b && ']' !in b
    ensures NormalizeOutput(a) == NormalizeOutput(b) <==> WordsOf(a) == WordsOf(b)
  {
    NormalizeJoinsWords(a);
    NormalizeJoinsWords(b);
    NormalizeKeepsWords(a);
    NormalizeKeepsWords(b);
  }

  // ---------------------------------------------------------------------
  // Text with brackets

  /** What separates two neighbouring words once normalised: nothing after
      a word ending in `[` or before a word starting with `]`, one space
      otherwise. */
  function Gap(v: string, w: string): string {
    if (|v| > 0 && v[|v| - 1] == '[') || (|w| > 0 && w[0] == ']') then "" else " "
  }

  /** The words written out with their `Gap`s between neighbours. */
  function JoinTight(ws: seq<string>): string {
    if |ws| == 0 then ""
    else if |ws| == 1 then ws[0]
    else ws[0] + Gap(ws[0], ws[1]) + JoinTight(ws[1..])
  }

  /** `normalizeOutput` writes the words of any text out separated by their
      gaps: a whitespace run between two words becomes one space, and it
      disappears only next to a bracket, as in `[1 2]` for `[ 1\t2 ]`. */
  lemma NormalizeJoinsTight(s: string)
    ensures NormalizeOutput(s) == JoinTight(WordsOf(s))
  {
    var ws := WordsOf(s);
    TrimmedCollapseJoins(s);
    WordsAreWords(s);
    CloseJoins(ws);
    OpenJoins(ws);
  }

  /** Texts with the same words normalise alike, brackets or not. */
  lemma SameWordsSameNormal(a: string, b: string)
    requires WordsOf(a) == WordsOf(b)
    ensures NormalizeOutput(a) == NormalizeOutput(b)
  {
    NormalizeJoinsTight(a);
    NormalizeJoinsTight(b);
  }

  /** Collapsing and trimming write the words out separated by single
      spaces. */
  lemma TrimmedCollapseJoins(s: string)
    ensures Trim(CollapseWhitespace(s)) == JoinWords(WordsOf(s))
  {
    var t := Trim(CollapseWhitespace(s));
    TrimmedCollapseShape(s);
    NormalJoinsWords(t);
    WordsOfTrim(CollapseWhitespace(s));
    CollapseWords(s);
  }

  /** The text between neighbouring words after the closing-bracket pass. */
  function CloseGap(w: string): string {
    if |w| > 0 && w[0] == ']' then "" else " "
  }

  /** The words written out with their `CloseGap`s. */
  function JoinClosed(ws: seq<string>): string {
    if |ws| == 0 then ""
    else if |ws| == 1 then ws[0]
    else ws[0] + CloseGap(ws[1]) + JoinClosed(ws[1..])
  }

  /** A word is left alone by both bracket passes. */
  lemma WordFixed(v: string)
    requires IsWord(v)
    ensures StripSpaceBeforeClose(v) == v && StripSpaceAfterOpen(v) == v
  {
    assert Neighbours(v, NoSpaceBeforeClose);
    assert Neighbours(v, NoSpaceAfterOpen);
    CloseFixes(v);
    OpenFixes(v);
  }

  /** Both joins of words start with the first word's first character. */
  lemma JoinHead(ws: seq<string>)
    requires |ws| > 0 && IsWord(ws[0])
    ensures |JoinWords(ws)| > 0 && JoinWords(ws)[0] == ws[0][0]
    ensures |JoinClosed(ws)| > 0 && JoinClosed(ws)[0] == ws[0][0]
  {
  }

  /** The space before a word is dropped by the closing-bracket pass
      exactly when the word starts with `]`. */
  lemma CloseGapStep(y: string)
    requires |y| > 0 && !IsWs(y[0])
    ensures StripSpaceBeforeClose([' '] + y) == CloseGap(y) + StripSpaceBeforeClose(y)
  {
    CloseSpaceCons(y);
    if y[0] == ']' {
      CloseBracketCons(y);
    }
  }

  lemma CloseBracketCons(y: string)
    requires |y| > 0 && y[0] == ']'
    ensures StripSpaceBeforeClose(y) == [']'] + StripSpaceBeforeClose(y[1..])
  {
    CloseCons(']', y[1..]);
    assert [']'] + y[1..] == y;
  }

  /** The closing-bracket pass after a word and a space. */
  lemma CloseWordThen(v: string, rest: string)
    requires IsWord(v) && |rest| > 0 && !IsWs(rest[0])
    ensures StripSpaceBeforeClose(v + ([' '] + rest)) == v + (CloseGap(rest) + StripSpaceBeforeClose(rest))
  {
    WordFixed(v);
    CloseConcat(v, [' '] + rest);
    CloseGapStep(rest);
  }

  /** `replace(/\s+\]/g, ']')` on words separated by single spaces. */
  lemma {:induction false} CloseJoins(ws: seq<string>)
    requires forall k :: 0 <= k < |ws| ==> IsWord(ws[k])
    ensures StripSpaceBeforeClose(JoinWords(ws)) == JoinClosed(ws)
    decreases |ws|
  {
    if |ws| == 1 {
      WordFixed(ws[0]);
    } else if |ws| > 1 {
      var rest := JoinWords(ws[1..]);
      CloseJoins(ws[1..]);
      JoinHead(ws[1..]);
      assert JoinWords(ws) == ws[0] + ([' '] + rest);
      CloseWordThen(ws[0], rest);
    }
  }

  /** The opening-bracket pass copies a character that does not start a
      `[` followed by whitespace. */
  lemma OpenCons(c: char, u: string)
    requires c != '[' || |u| == 0 || !IsWs(u[0])
    ensures StripSpaceAfterOpen([c] + u) == [c] + StripSpaceAfterOpen(u)
  {
    assert ([c] + u)[1..] == u;
  }

  /** The gap after a word ending in `c` once the opening-bracket pass has
      run: a space after `[` is dropped. */
  function OpenGap(c: char, g: string): string {
    if g == " " && c == '[' then "" else g
  }

  /** `replace(/\[\s+/g, '[')` after a word: the gap stays unless it is a
      space after a `[`. */
  lemma {:induction false} OpenWordThen(v: string, g: string, y: string)
    requires IsWord(v) && (g == "" || g == " ")
    requires |y| > 0 && !IsWs(y[0])
    ensures StripSpaceAfterOpen(v + (g + y)) == v + (OpenGap(v[|v| - 1], g) + StripSpaceAfterOpen(y))
    decreases |v|
  {
    var w := g + y;
    if |v| == 1 {
      assert v == [v[0]];
      OpenLastChar(v[0], g, y);
    } else {
      OpenWordThen(v[1..], g, y);
      assert v[1..][|v| - 2] == v[|v| - 1];
      OpenCons(v[0], v[1..] + w);
      ConsAssoc(v[0], v[1..], w);
      ConsAssoc(v[0], v[1..], OpenGap(v[|v| - 1], g) + StripSpaceAfterOpen(y));
      assert [v[0]] + v[1..] == v;
    }
  }

  /** The opening-bracket pass over a word's last character and the gap. */
  lemma OpenLastChar(c: char, g: string, y: string)
    requires !IsWs(c) && (g == "" || g == " ")
    requires |y| > 0 && !IsWs(y[0])
    ensures StripSpaceAfterOpen([c] + (g + y)) == [c] + (OpenGap(c, g) + StripSpaceAfterOpen(y))
  {
    if g == " " && c == '[' {
      OpenSpaceCons(y);
    } else if g == " " {
      OpenKeepSpace(c, y);
    } else {
      assert g + y == y;
      OpenCons(c, y);
    }
  }

  /** A space after a character other than `[` survives the pass. */
  lemma OpenKeepSpace(c: char, y: string)
    requires c != '[' && |y| > 0 && !IsWs(y[0])
    ensures StripSpaceAfterOpen([c] + ([' '] + y)) == [c] + ([' '] + StripSpaceAfterOpen(y))
  {
    OpenCons(c, [' '] + y);
    OpenCons(' ', y);
  }

  /** `replace(/\[\s+/g, '[')` after the closing-bracket pass. */
  lemma {:induction false} OpenJoins(ws: seq<string>)
    requires forall k :: 0 <= k < |ws| ==> IsWord(ws[k])
    ensures StripSpaceAfterOpen(JoinClosed(ws)) == JoinTight(ws)
    decreases |ws|
  {
    if |ws| == 1 {
      WordFixed(ws[0]);
    } else if |ws| > 1 {
      var g := CloseGap(ws[1]);
      var y := JoinClosed(ws[1..]);
      OpenJoins(ws[1..]);
      JoinHead(ws[1..]);
      JoinSteps(ws);
      OpenWordThen(ws[0], g, y);
      GapAfterClose(ws[0], ws[1]);
    }
  }

  /** Both gapped joins, written with the first word split off. */
  lemma JoinSteps(ws: seq<string>)
    requires |ws| > 1
    ensures JoinClosed(ws) == ws[0] + (CloseGap(ws[1]) + JoinClosed(ws[1..]))
    ensures JoinTight(ws) == ws[0] + (Gap(ws[0], ws[1]) + JoinTight(ws[1..]))
  {
    var g := CloseGap(ws[1]);
    var y := JoinClosed(ws[1..]);
    assert JoinClosed(ws) == ws[0] + g + y;
    AppendAssoc(ws[0], g, y);
    var h := Gap(ws[0], ws[1]);
    var z := JoinTight(ws[1..]);
    assert JoinTight(ws) == ws[0] + h + z;
    AppendAssoc(ws[0], h, z);
  }

  /** The two bracket passes together leave exactly the `Gap`. */
  lemma GapAfterClose(v: string, w: string)
    requires IsWord(v) && IsWord(w)
    ensures OpenGap(v[|v| - 1], CloseGap(w)) == Gap(v, w)
  {
  }

  // ---------------------------------------------------------------------
  // Words of composed texts

  /** Leading whitespace adds no word. */
  lemma {:induction false} WordsSkipWs(w: string, u: string)
    requires AllWs(w)
    ensures WordsOf(w + u) == WordsOf(u)
    decreases |w|
  {
    if |w| > 0 {
      TailOfJoin(w, u);
      WordsSkipWs(w[1..], u);
    } else {
      assert w + u == u;
    }
  }

  lemma TailOfJoin(x: string, y: string)
    requires |x| > 0
    ensures (x + y)[0] == x[0] && (x + y)[1..] == x[1..] + y
  {
  }

  /** A word followed by whitespace (or nothing) is read as one word. */
  lemma {:induction false} WordLenOfWord(v: string, y: string)
    requires forall i :: 0 <= i < |v| ==> !IsWs(v[i])
    requires |y| == 0 || IsWs(y[0])
    ensures WordLen(v + y) == |v|
    decreases |v|
  {
    if |v| > 0 {
      TailOfJoin(v, y);
      WordLenOfWord(v[1..], y);
    } else {
      assert v + y == y;
    }
  }

  /** A word followed by whitespace (or nothing) is the first word. */
  lemma WordsOfWordThen(v: string, y: string)
    requires IsWord(v)
    requires |y| == 0 || IsWs(y[0])
    ensures WordsOf(v + y) == [v] + WordsOf(y)
  {
    WordLenOfWord(v, y);
    PrefixAndRest(v, y);
  }

  lemma PrefixAndRest(v: string, y: string)
    ensures (v + y)[..|v|] == v && (v + y)[|v|..] == y
  {
  }

  /** Trailing whitespace adds no word. */
  lemma {:induction false} WordsDropWs(u: string, w: string)
    requires AllWs(w)
    ensures WordsOf(u + w) == WordsOf(u)
    decreases |u|
  {
    if |u| == 0 {
      WordsSkipWs(w, []);
      assert w + [] == w && u + w == w;
    } else if IsWs(u[0]) {
      TailOfJoin(u, w);
      WordsDropWs(u[1..], w);
    } else {
      var n := WordLen(u);
      var v := u[..n];
      var rest := u[n..];
      assert u == v + rest;
      assert u + w == v + (rest + w);
      WordsDropWs(rest, w);
      WordsOfWordThen(v, rest + w);
      WordsOfWordThen(v, rest);
    }
  }

  /** `trim()` keeps the words. */
  lemma WordsOfTrim(s: string)
    ensures WordsOf(Trim(s)) == WordsOf(s)
  {
    TrimSlice(s);
    var k := |s| - |TrimStart(s)|;
    var t := Trim(s);
    var tail := s[k + |t|..];
    assert s == s[..k] + (t + tail);
    WordsSkipWs(s[..k], t + tail);
    WordsDropWs(t, tail);
  }

  /** Collapsing whitespace copies a leading word unchanged. */
  lemma {:induction false} CollapseKeepsWord(s: string)
    ensures CollapseWhitespace(s) == s[..WordLen(s)] + CollapseWhitespace(s[WordLen(s)..])
    decreases |s|
  {
    if WordLen(s) == 0 {
      assert s[..0] == [] && s[0..] == s;
    } else {
      CollapseKeepsWord(s[1..]);
      CollapseWordStep(s);
    }
  }

  lemma CollapseWordStep(s: string)
    requires WordLen(s) > 0
    requires var n := WordLen(s[1..]);
      CollapseWhitespace(s[1..]) == s[1..][..n] + CollapseWhitespace(s[1..][n..])
    ensures CollapseWhitespace(s) == s[..WordLen(s)] + CollapseWhitespace(s[WordLen(s)..])
  {
    var n := WordLen(s);
    assert WordLen(s[1..]) == n - 1;
    assert CollapseWhitespace(s) == [s[0]] + CollapseWhitespace(s[1..]);
    ConsSlices(s, n);
    ConsAssoc(s[0], s[1..n], CollapseWhitespace(s[n..]));
  }

  lemma ConsSlices(s: string, n: nat)
    requires 0 < n <= |s|
    ensures s[1..][..n - 1] == s[1..n] && s[1..][n - 1..] == s[n..] && s[..n] == [s[0]] + s[1..n]
  {
  }

  lemma ConsAssoc(c: char, x: string, y: string)
    ensures [c] + (x + y) == ([c] + x) + y
  {
  }

  /** `replace(/\s+/g, ' ')` keeps the words. */
  lemma {:induction false} CollapseWords(s: string)
    ensures WordsOf(CollapseWhitespace(s)) == WordsOf(s)
    decreases |s|
  {
    if |s| == 0 {
    } else if IsWs(s[0]) {
      CollapseWords(TrimStart(s));
      CollapseWordsWsStep(s);
    } else {
      CollapseWords(s[WordLen(s)..]);
      CollapseWordsWordStep(s);
    }
  }

  /** A leading run of whitespace becomes one space, which has no words. */
  lemma CollapseWordsWsStep(s: string)
    requires |s| > 0 && IsWs(s[0])
    requires WordsOf(CollapseWhitespace(TrimStart(s))) == WordsOf(TrimStart(s))
    ensures WordsOf(CollapseWhitespace(s)) == WordsOf(s)
  {
    WordsSkipLeadingWs(s);
    CollapseLeadingWs(s);
    SpaceThen(CollapseWhitespace(TrimStart(s)));
  }

  lemma WordsSkipLeadingWs(s: string)
    ensures WordsOf(s) == WordsOf(TrimStart(s))
  {
    var t := TrimStart(s);
    var w := s[..|s| - |t|];
    assert s == w + t;
    WordsSkipWs(w, t);
  }

  lemma CollapseLeadingWs(s: string)
    requires |s| > 0 && IsWs(s[0])
    ensures CollapseWhitespace(s) == [' '] + CollapseWhitespace(TrimStart(s))
  {
  }

  /** A leading word is kept, and what follows it keeps its words. */
  lemma CollapseWordsWordStep(s: string)
    requires |s| > 0 && !IsWs(s[0])
    requires WordsOf(CollapseWhitespace(s[WordLen(s)..])) == WordsOf(s[WordLen(s)..])
    ensures WordsOf(CollapseWhitespace(s)) == WordsOf(s)
  {
    var n := WordLen(s);
    var v, y := s[..n], s[n..];
    var z := CollapseWhitespace(y);
    CollapseKeepsWord(s);
    LeadingWord(s);
    CollapseKeepsLeadingWs(y);
    WordThenBoth(v, y, z);
    SliceJoin(s, n);
  }

  lemma CollapseKeepsLeadingWs(y: string)
    requires |y| == 0 || IsWs(y[0])
    ensures |CollapseWhitespace(y)| == 0 || IsWs(CollapseWhitespace(y)[0])
  {
  }

  lemma SliceJoin(s: string, n: nat)
    requires n <= |s|
    ensures s == s[..n] + s[n..]
  {
  }

  lemma LeadingWord(s: string)
    requires |s| > 0 && !IsWs(s[0])
    ensures IsWord(s[..WordLen(s)])
  {
    var n := WordLen(s);
    assert n == 1 + WordLen(s[1..]);
    var v := s[..n];
    assert forall i :: 0 <= i < |v| ==> v[i] == s[i];
  }

  lemma SpaceThen(c: string)
    ensures WordsOf([' '] + c) == WordsOf(c)
  {
    TailOfJoin([' '], c);
  }

  /** A word in front of two texts with the same words, each empty or
      starting with whitespace. */
  lemma WordThenBoth(v: string, y: string, z: string)
    requires IsWord(v) && WordsOf(z) == WordsOf(y)
    requires |y| == 0 || IsWs(y[0])
    requires |z| == 0 || IsWs(z[0])
    ensures WordsOf(v + z) == WordsOf(v + y)
  {
    WordsOfWordThen(v, y);
    WordsOfWordThen(v, z);
  }

  // ---------------------------------------------------------------------
  // Text in collapsed, trimmed shape is its words joined by single spaces

  /** Trimmed text whose only whitespace is isolated single spaces is its
      words joined by single spaces. */
  lemma {:induction false} NormalJoinsWords(t: string)
    requires Trimmed(t) && OnlySpaces(t) && Neighbours(t, NoDoubleSpace)
    ensures t == JoinWords(WordsOf(t))
    decreases |t|
  {
    if |t| > 0 {
      var n := WordLen(t);
      if n == |t| {
        assert t[..n] == t && t[n..] == [];
      } else {
        NextWordShape(t, n);
        NormalJoinsWords(t[n + 1..]);
        WordThenSpace(t, n);
      }
    }
  }

  /** After the first word of collapsed, trimmed text come one space and
      the rest, again collapsed and trimmed. */
  lemma NextWordShape(t: string, n: nat)
    requires Trimmed(t) && OnlySpaces(t) && Neighbours(t, NoDoubleSpace)
    requires n == WordLen(t) && n < |t|
    ensures n + 1 < |t| && t[n] == ' ' && !IsWs(t[n + 1])
    ensures Trimmed(t[n + 1..]) && OnlySpaces(t[n + 1..]) && Neighbours(t[n + 1..], NoDoubleSpace)
  {
    assert Allowed(NoDoubleSpace, t[n], t[n + 1]);
    SliceShape(t, n + 1);
  }

  /** A word, one space, and text that is its words joined by single
      spaces, is its words joined by single spaces. */
  lemma WordThenSpace(t: string, n: nat)
    requires n == WordLen(t) && 0 < n && n + 1 < |t| && t[n] == ' ' && !IsWs(t[n + 1])
    requires t[n + 1..] == JoinWords(WordsOf(t[n + 1..]))
    ensures t == JoinWords(WordsOf(t))
  {
    var u := t[n + 1..];
    WordsAfterWord(t, n);
    JoinFirst(t[..n], WordsOf(u));
    SplitAtSpace(t, n);
  }

  lemma SplitAtSpace(t: string, n: nat)
    requires n < |t| && t[n] == ' '
    ensures t == t[..n] + " " + t[n + 1..]
  {
  }

  /** The words of a word, one space and more text. */
  lemma WordsAfterWord(t: string, n: nat)
    requires n == WordLen(t) && 0 < n && n + 1 < |t| && t[n] == ' ' && !IsWs(t[n + 1])
    ensures WordsOf(t) == [t[..n]] + WordsOf(t[n + 1..])
    ensures |WordsOf(t[n + 1..])| > 0
  {
    var u := t[n + 1..];
    assert t == t[..n] + t[n..];
    WordsOfWordThen(t[..n], t[n..]);
    assert t[n..] == [t[n]] + u;
    WordsSkipWs([t[n]], u);
    assert u[0] == t[n + 1];
  }

  /** A suffix of collapsed, trimmed text that starts with a visible
      character is again collapsed and trimmed. */
  lemma SliceShape(t: string, k: nat)
    requires Trimmed(t) && OnlySpaces(t) && Neighbours(t, NoDoubleSpace)
    requires k < |t| && !IsWs(t[k])
    ensures Trimmed(t[k..]) && OnlySpaces(t[k..]) && Neighbours(t[k..], NoDoubleSpace)
  {
    OnlySpacesSlice(t, k, |t|);
    NeighboursSlice(t, k, |t|, NoDoubleSpace);
    assert t[k..|t|] == t[k..];
  }

  /** Joining a first word in front of a non-empty list of words. */
  lemma JoinFirst(w: string, ws: seq<string>)
    requires |ws| > 0
    ensures JoinWords([w] + ws) == w + " " + JoinWords(ws)
  {
    assert ([w] + ws)[1..] == ws;
  }

  // ---------------------------------------------------------------------
  // Text without brackets

  /** Collapsing whitespace introduces no visible character. */
  lemma {:induction false} CollapseOutside(s: string, c: char)
    requires !IsWs(c) && c !in s
    ensures c !in CollapseWhitespace(s)
    decreases |s|
  {
    if |s| > 0 {
      if IsWs(s[0]) {
        var t := TrimStart(s);
        assert forall i :: 0 <= i < |t| ==> t[i] == s[|s| - |t| + i];
        CollapseOutside(t, c);
      } else {
        assert forall i :: 0 <= i < |s| - 1 ==> s[1..][i] == s[i + 1];
        CollapseOutside(s[1..], c);
      }
    }
  }

  /** `trim()` introduces no character. */
  lemma TrimOutside(s: string, c: char)
    requires c !in s
    ensures c !in Trim(s)
  {
    TrimSlice(s);
    var k := |s| - |TrimStart(s)|;
    var t := Trim(s);
    assert forall i :: 0 <= i < |t| ==> t[i] == s[k + i];
  }

  /** Text without brackets is left alone by the two bracket rules. */
  lemma NoBracketsFixed(t: string)
    requires '[' !in t && ']' !in t
    ensures StripSpaceBeforeClose(t) == t && StripSpaceAfterOpen(t) == t
  {
    assert Neighbours(t, NoSpaceBeforeClose) by {
      forall i, j | 0 <= i < |t| && j == i + 1 && j < |t|
        ensures Allowed(NoSpaceBeforeClose, t[i], t[j])
      {
        assert t[j] in t;
      }
    }
    assert Neighbours(t, NoSpaceAfterOpen) by {
      forall i, j | 0 <= i < |t| && j == i + 1 && j < |t|
        ensures Allowed(NoSpaceAfterOpen, t[i], t[j])
      {
        assert t[i] in t;
      }
    }
    CloseFixes(t);
    OpenFixes(t);
  }
}
