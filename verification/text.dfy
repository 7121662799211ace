/**
 The JavaScript string built-ins the quiz relies on, over `string` (a sequence
 of characters): the `\s` character class, `trim()`, `startsWith` and
 `split(/\r?\n/)`.
 */
module Text {

  /** ECMAScript WhiteSpace and LineTerminator code points. This is both the
      class matched by `\s` in a regular expression and the set of characters
      `trim()` removes, so one predicate serves both. */
  predicate IsWs(c: char) {
    || ('\t' <= c <= '\r')        // tab, line feed, vertical tab, form feed, carriage return
    || c == ' ' || c == '\U{A0}' || c == '\U{1680}'
    || ('\U{2000}' <= c <= '\U{200A}')
    || c == '\U{2028}' || c == '\U{2029}' // line and paragraph separators
    || c == '\U{202F}' || c == '\U{205F}' || c == '\U{3000}' || c == '\U{FEFF}'
  }

  /** Every character of `s` is whitespace. */
  predicate AllWs(s: string) {
    forall i :: 0 <= i < |s| ==> IsWs(s[i])
  }

  /** `s` neither starts nor ends with whitespace. */
  predicate Trimmed(s: string) {
    |s| == 0 || (!IsWs(s[0]) && !IsWs(s[|s| - 1]))
  }

  /** The length of the whitespace run that `s` starts with. */
  function LeadingWs(s: string): (n: nat)
    ensures n <= |s| && AllWs(s[..n])
    ensures n == |s| || !IsWs(s[n])
  {
    if |s| > 0 && IsWs(s[0]) then 1 + LeadingWs(s[1..]) else 0
  }

  /** The length of the whitespace run that `s` ends with. */
  function TrailingWs(s: string): (n: nat)
    ensures n <= |s| && AllWs(s[|s| - n..])
    ensures n == |s| || !IsWs(s[|s| - n - 1])
  {
    if |s| > 0 && IsWs(s[|s| - 1]) then 1 + TrailingWs(s[..|s| - 1]) else 0
  }

  /** `s` with its leading whitespace removed (`trimStart()`). */
  function TrimStart(s: string): (r: string)
    ensures |r| <= |s| && r == s[|s| - |r|..]
    ensures AllWs(s[..|s| - |r|])
    ensures |r| == 0 || !IsWs(r[0])
  {
    s[LeadingWs(s)..]
  }

  /** `s` with its trailing whitespace removed (`trimEnd()`). */
  function TrimEnd(s: string): (r: string)
    ensures |r| <= |s| && r == s[..|r|]
    ensures AllWs(s[|r|..])
    ensures |r| == 0 || !IsWs(r[|r| - 1])
  {
    s[..|s| - TrailingWs(s)]
  }

  /** `s.trim()`: what is left once whitespace is removed from both ends. */
  function Trim(s: string): (r: string)
    ensures Trimmed(r)
    ensures |r| <= |s|
  {
    TrimEnd(TrimStart(s))
  }

  /** `trim()` returns a slice of its input, and what it cut off on either
      side is whitespace. */
  lemma TrimSlice(s: string)
    ensures var k := |s| - |TrimStart(s)|;
      && k + |Trim(s)| <= |s|
      && Trim(s) == s[k..k + |Trim(s)|]
      && AllWs(s[..k]) && AllWs(s[k + |Trim(s)|..])
  {
    TrimSliceKept(s);
    TrimSliceCut(s);
  }

  lemma TrimSliceKept(s: string)
    ensures var k := |s| - |TrimStart(s)|;
      k + |Trim(s)| <= |s| && Trim(s) == s[k..k + |Trim(s)|]
  {
    var t := TrimStart(s);
    SliceCompose(s, t, TrimEnd(t));
  }

  lemma TrimSliceCut(s: string)
    ensures var k := |s| - |TrimStart(s)|;
      k + |Trim(s)| <= |s| && AllWs(s[k + |Trim(s)|..])
  {
    var t := TrimStart(s);
    SliceCompose(s, t, TrimEnd(t));
  }

  /** A prefix `r` of a suffix `t` of `s` is the slice of `s` where they
      meet, and what follows `r` in `t` is what follows it in `s`. */
  lemma SliceCompose(s: string, t: string, r: string)
    requires |t| <= |s| && t == s[|s| - |t|..]
    requires |r| <= |t| && r == t[..|r|]
    ensures var k := |s| - |t|; r == s[k..k + |r|] && t[|r|..] == s[k + |r|..]
  {
  }

  /** `s.trim()` is empty exactly when `s` is blank. */
  lemma TrimEmptyIffBlank(s: string)
    ensures Trim(s) == "" <==> AllWs(s)
  {
  }

  /** Text that does not end with whitespace is its own `trimEnd()`. */
  lemma TrimEndKeeps(s: string)
    requires |s| > 0 && !IsWs(s[|s| - 1])
    ensures TrimEnd(s) == s
  {
  }

  /** Trimming text without whitespace at its ends changes nothing. */
  lemma TrimOfTrimmed(t: string)
    requires Trimmed(t)
    ensures Trim(t) == t
  {
  }

  /** Leading whitespace never survives `trimStart()`. */
  lemma {:induction false} TrimStartSkips(w: string, u: string)
    requires AllWs(w)
    ensures TrimStart(w + u) == TrimStart(u)
    decreases |w|
  {
    if |w| > 0 {
      assert (w + u)[1..] == w[1..] + u;
      TrimStartSkips(w[1..], u);
    } else {
      assert w + u == u;
    }
  }

  /** Trailing whitespace never survives `trimEnd()`. */
  lemma {:induction false} TrimEndSkips(u: string, w: string)
    requires AllWs(w)
    ensures TrimEnd(u + w) == TrimEnd(u)
    decreases |w|
  {
    if |w| > 0 {
      assert (u + w)[..|u + w| - 1] == u + w[..|w| - 1];
      TrimEndSkips(u, w[..|w| - 1]);
    } else {
      assert u + w == u;
    }
  }

  /** Once a visible character is reached, `trimStart()` keeps the rest. */
  lemma {:induction false} TrimStartKeepsTail(u: string, b: string)
    requires TrimStart(u) != []
    ensures TrimStart(u + b) == TrimStart(u) + b
    decreases |u|
  {
    if IsWs(u[0]) {
      assert (u + b)[1..] == u[1..] + b;
      TrimStartKeepsTail(u[1..], b);
    }
  }

  /** Whitespace added around a text never changes what `trim()` returns. */
  lemma TrimIgnoresPadding(a: string, s: string, b: string)
    requires AllWs(a) && AllWs(b)
    ensures Trim(a + s + b) == Trim(s)
  {
    assert a + s + b == a + (s + b);
    TrimStartSkips(a, s + b);
    if TrimStart(s) != [] {
      TrimStartKeepsTail(s, b);
      TrimEndSkips(TrimStart(s), b);
    } else {
      assert s[..|s|] == s;
      assert AllWs(s + b);
      TrimStartSkips(s + b, []);
      assert (s + b) + [] == s + b;
    }
  }

  /** A non-empty text is its first character followed by the rest. */
  lemma HeadTail(s: string)
    requires |s| > 0
    ensures [s[0]] + s[1..] == s
  {
  }

  /** `s.startsWith(p)`. */
  predicate StartsWith(s: string, p: string) {
    |p| <= |s| && s[..|p|] == p
  }

  /** Number of occurrences of the character `c` in `s`. */
  function CountChar(s: string, c: char): nat {
    if |s| == 0 then 0 else (if s[0] == c then 1 else 0) + CountChar(s[1..], c)
  }

  /** `s.split(/\r?\n/)`: the pieces between line breaks, where a line break
      is a `\n` optionally preceded by a `\r`. The regular expression is
      scanned left to right, so a `\r` belongs to a break only when a `\n`
      follows it directly. */
  function SplitLines(s: string): (r: seq<string>)
    ensures |r| >= 1
    ensures forall k :: 0 <= k < |r| ==> '\n' !in r[k]
  {
    if |s| == 0 then [""]
    else if s[0] == '\n' then [""] + SplitLines(s[1..])
    else if s[0] == '\r' && |s| > 1 && s[1] == '\n' then [""] + SplitLines(s[2..])
    else
      var rest := SplitLines(s[1..]);
      [[s[0]] + rest[0]] + rest[1..]
  }

  /** There is one more piece than there are `\n` characters, and a single
      piece is the whole text. */
  lemma {:induction false} SplitLinesCount(s: string)
    ensures |SplitLines(s)| == CountChar(s, '\n') + 1
    ensures |SplitLines(s)| == 1 ==> SplitLines(s) == [s]
  {
    if |s| > 0 {
      if s[0] == '\r' && |s| > 1 && s[1] == '\n' {
        SplitLinesCount(s[2..]);
        assert s[1..][1..] == s[2..];
      } else {
        SplitLinesCount(s[1..]);
        assert [s[0]] + s[1..] == s;
      }
    }
  }

  /** The last piece is what follows the last line break: a suffix of `s`. */
  lemma {:induction false} LastLineIsSuffix(s: string)
    ensures var last := SplitLines(s)[|SplitLines(s)| - 1];
      |last| <= |s| && last == s[|s| - |last|..]
  {
    if |s| > 0 {
      var rest := if s[0] == '\r' && |s| > 1 && s[1] == '\n' then s[2..] else s[1..];
      LastLineIsSuffix(rest);
      if !(s[0] == '\n' || (s[0] == '\r' && |s| > 1 && s[1] == '\n')) {
        if |SplitLines(rest)| == 1 {
          SplitLinesCount(rest);
          SplitLinesCount(s);
          assert [s[0]] + rest == s;
        }
      }
    }
  }

  /** `s.split(/\r?\n/)[0]`: the text before the first line break. */
  function FirstLine(s: string): string {
    SplitLines(s)[0]
  }

  /** The first line ends at the first `\n`, and a `\r` directly before that
      `\n` is part of the break, not of the line. */
  lemma {:induction false} FirstLineBeforeBreak(x: string, t: string)
    requires '\n' !in x
    ensures FirstLine(x + "\r\n" + t) == x
    ensures (|x| == 0 || x[|x| - 1] != '\r') ==> FirstLine(x + "\n" + t) == x
  {
    if |x| > 0 {
      FirstLineBeforeBreak(x[1..], t);
      assert (x + "\r\n" + t)[1..] == x[1..] + "\r\n" + t;
      assert (x + "\n" + t)[1..] == x[1..] + "\n" + t;
      if |x| == 1 {
        assert (x + "\n" + t)[1] == '\n';
      }
      assert [x[0]] + x[1..] == x;
    } else {
      assert x + "\r\n" + t == "\r\n" + t;
      assert x + "\n" + t == "\n" + t;
    }
  }

  /** A text without line breaks is a single line. */
  lemma SplitLinesSingle(y: string)
    requires '\n' !in y
    ensures SplitLines(y) == [y]
  {
    CountCharAbsent(y, '\n');
    SplitLinesCount(y);
  }

  lemma {:induction false} CountCharAbsent(s: string, c: char)
    requires c !in s
    ensures CountChar(s, c) == 0
  {
    if |s| > 0 {
      CountCharAbsent(s[1..], c);
    }
  }

  /** A line without a trailing `\r`, a `\n` and more text split into that
      line followed by the lines of the rest. */
  lemma {:induction false} SplitLinesBreak(x: string, y: string)
    requires '\n' !in x && (|x| == 0 || x[|x| - 1] != '\r')
    ensures SplitLines(x + "\n" + y) == [x] + SplitLines(y)
  {
    if |x| > 0 {
      SplitLinesBreak(x[1..], y);
      assert (x + "\n" + y)[1..] == x[1..] + "\n" + y;
      if |x| == 1 {
        assert (x + "\n" + y)[1] == '\n';
      }
      assert [x[0]] + x[1..] == x;
    } else {
      assert x + "\n" + y == "\n" + y;
      assert ("\n" + y)[1..] == y;
    }
  }

  /** The last piece of `split(/\r?\n/)`: the text after the last `\n`. */
  function LastLine(s: string): string {
    SplitLines(s)[|SplitLines(s)| - 1]
  }

  /** The last piece is the whole text exactly when there is no line break,
      and a shorter last piece is directly preceded by a `\n`. */
  lemma {:induction false} LastLineAfterBreak(s: string)
    ensures |SplitLines(s)| > 1 <==> |LastLine(s)| < |s|
    ensures |LastLine(s)| < |s| ==> s[|s| - |LastLine(s)| - 1] == '\n'
  {
    if |s| > 0 {
      if s[0] == '\n' {
        LastLineOfBreak(s);
        LastLineAfterBreak(s[1..]);
        LastLineIsSuffix(s[1..]);
      } else if s[0] == '\r' && |s| > 1 && s[1] == '\n' {
        LastLineOfCrLf(s);
        LastLineAfterBreak(s[2..]);
        LastLineIsSuffix(s[2..]);
      } else {
        LastLineOfOther(s);
        LastLineAfterBreak(s[1..]);
        SplitLinesCount(s);
      }
    }
  }

  lemma LastLineOfBreak(s: string)
    requires |s| > 0 && s[0] == '\n'
    ensures |SplitLines(s)| == |SplitLines(s[1..])| + 1
    ensures LastLine(s) == LastLine(s[1..])
  {
  }

  lemma LastLineOfCrLf(s: string)
    requires |s| > 1 && s[0] == '\r' && s[1] == '\n'
    ensures |SplitLines(s)| == |SplitLines(s[2..])| + 1
    ensures LastLine(s) == LastLine(s[2..])
  {
  }

  lemma LastLineOfOther(s: string)
    requires |s| > 0 && s[0] != '\n' && !(s[0] == '\r' && |s| > 1 && s[1] == '\n')
    ensures |SplitLines(s)| == |SplitLines(s[1..])|
    ensures |SplitLines(s)| > 1 ==> LastLine(s) == LastLine(s[1..])
  {
  }

  /** Whatever comes before, the last piece of `p + x` is `x` when `p` is
      empty or ends with a line break and `x` holds none. */
  lemma LastLineOf(p: string, x: string)
    requires '\n' !in x
    requires |p| == 0 || p[|p| - 1] == '\n'
    ensures LastLine(p + x) == x
  {
    var s := p + x;
    var last := LastLine(s);
    LastLineIsSuffix(s);
    LastLineAfterBreak(s);
    assert last == s[|s| - |x|..] == x;
  }

  /** `lines.join('\n')`. */
  function JoinLines(ls: seq<string>): string {
    if |ls| == 0 then ""
    else if |ls| == 1 then ls[0]
    else ls[0] + "\n" + JoinLines(ls[1..])
  }

  /** Joining one more line adds a `\n` and the line. */
  lemma {:induction false} JoinAppend(ls: seq<string>, x: string)
    requires |ls| > 0
    ensures JoinLines(ls + [x]) == JoinLines(ls) + "\n" + x
  {
    assert (ls + [x])[1..] == ls[1..] + [x];
    if |ls| > 1 {
      JoinAppend(ls[1..], x);
      assert ls[0] + "\n" + (JoinLines(ls[1..]) + "\n" + x)
          == (ls[0] + "\n" + JoinLines(ls[1..])) + "\n" + x;
    }
  }

  /** A line as `split(/\r?\n/)` returns it: no `\n`, and no `\r` at its
      end (that one would be taken as part of the break). */
  predicate PlainLine(l: string) {
    '\n' !in l && (|l| == 0 || l[|l| - 1] != '\r')
  }

  /** Splitting undoes joining: `ls.join('\n').split(/\r?\n/)` is `ls`
      for a non-empty list of plain lines. */
  lemma {:induction false} SplitJoin(ls: seq<string>)
    requires |ls| >= 1 && forall k :: 0 <= k < |ls| ==> PlainLine(ls[k])
    ensures SplitLines(JoinLines(ls)) == ls
  {
    if |ls| == 1 {
      SplitLinesSingle(ls[0]);
    } else {
      SplitJoin(ls[1..]);
      SplitLinesBreak(ls[0], JoinLines(ls[1..]));
      assert [ls[0]] + ls[1..] == ls;
    }
  }

  /** `ls.filter(Boolean)`: the non-empty strings, in order. */
  function NonEmptyLines(ls: seq<string>): (r: seq<string>)
    ensures |r| <= |ls|
    ensures forall k :: 0 <= k < |r| ==> |r[k]| > 0 && r[k] in ls
  {
    if |ls| == 0 then []
    else (if |ls[0]| > 0 then [ls[0]] else []) + NonEmptyLines(ls[1..])
  }

  /** Concatenation is associative; stated once so that proofs can name the
      regrouping they need. */
  lemma AppendAssoc(a: string, b: string, c: string)
    ensures a + b + c == a + (b + c)
  {
  }

  /** Filtering one more element appends it exactly when it is non-empty:
      with `NonEmptyLines([]) == []` this fixes the filter completely, so
      every non-empty string is kept, in order, and nothing else. */
  lemma {:induction false} NonEmptySnoc(ls: seq<string>, x: string)
    ensures NonEmptyLines(ls + [x]) == NonEmptyLines(ls) + (if |x| > 0 then [x] else [])
    decreases |ls|
  {
    if |ls| == 0 {
      assert ls + [x] == [x];
    } else {
      var head := if |ls[0]| > 0 then [ls[0]] else [];
      var tail := if |x| > 0 then [x] else [];
      assert (ls + [x])[0] == ls[0];
      assert (ls + [x])[1..] == ls[1..] + [x];
      assert NonEmptyLines(ls + [x]) == head + NonEmptyLines(ls[1..] + [x]);
      NonEmptySnoc(ls[1..], x);
      assert head + (NonEmptyLines(ls[1..]) + tail) == (head + NonEmptyLines(ls[1..])) + tail;
    }
  }

  /** Filtering keeps a non-empty last element last. */
  lemma {:induction false} NonEmptyKeepsLast(ls: seq<string>)
    requires |ls| > 0 && |ls[|ls| - 1]| > 0
    ensures |NonEmptyLines(ls)| > 0
    ensures NonEmptyLines(ls)[|NonEmptyLines(ls)| - 1] == ls[|ls| - 1]
  {
    if |ls| > 1 {
      NonEmptyKeepsLast(ls[1..]);
    }
  }

  /** Filtering a list of empty strings leaves nothing. */
  lemma {:induction false} NonEmptyOfEmpties(ls: seq<string>)
    requires forall k :: 0 <= k < |ls| ==> |ls[k]| == 0
    ensures NonEmptyLines(ls) == []
  {
    if |ls| > 0 {
      NonEmptyOfEmpties(ls[1..]);
    }
  }

  /** The last line of trimmed text is empty only when the text is. */
  lemma LastLineOfTrimmed(s: string)
    requires Trimmed(s)
    ensures |LastLine(s)| == 0 <==> |s| == 0
  {
    LastLineAfterBreak(s);
    LastLineIsSuffix(s);
  }

  /** `l` is the text after the last line break of `s`: a suffix of `s`
      without `\n` that is either all of `s` or directly preceded by a
      `\n`. */
  predicate IsLastLineOf(l: string, s: string) {
    && '\n' !in l
    && |l| <= |s| && l == s[|s| - |l|..]
    && (|l| < |s| ==> s[|s| - |l| - 1] == '\n')
  }

  /** The last piece of `split(/\r?\n/)` is the text after the last line
      break. */
  lemma LastLineIs(s: string)
    ensures IsLastLineOf(LastLine(s), s)
  {
    LastLineIsSuffix(s);
    LastLineAfterBreak(s);
  }

  /** There is only one text after the last line break. */
  lemma LastLineUnique(l: string, l2: string, s: string)
    requires IsLastLineOf(l, s) && IsLastLineOf(l2, s)
    ensures l == l2
  {
  }
}
