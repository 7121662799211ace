/**
 The Python programs the quiz builds (useCodeRunner.ts): the program that
 prints the expected answer of a challenge (`buildChallengePrintCode`), the
 way the player's code is wrapped before it runs (`runPython`), and how the
 expected answer is read off the interpreter's output (`runChallengeExpected`).
 The interpreter itself is not modelled: its standard output and error are
 inputs.
 */
module Snippets {
  import opened Results
  import opened Text
  import opened Json
  import opened Challenges
  import opened Highlight

  /** `np.array(<JSON of the matrix>)`. */
  function NpArray(m: seq<seq<int>>): string {
    "np.array(" + JsonMatrix(m) + ")"
  }

  /** The first line of every generated program: `arr = np.array(...)`. */
  function Assignment(m: seq<seq<int>>): string {
    "arr = " + NpArray(m)
  }

  /** `buildChallengePrintCode(matrix, challenge)`: the assignment of the
      matrix to `arr`, then one `print` of the NumPy selection the challenge
      asks for. A 1-wide or 1-high submatrix is indexed with a plain integer
      on that axis. */
  function BuildChallengePrintCode(m: seq<seq<int>>, c: Challenge): (code: string)
  {
    var arr := NpArray(m);
    match c
    case Row(index) => "arr = " + arr + "\nprint(arr[" + IntToString(index) + ", :])"
    case Column(index) => "arr = " + arr + "\nprint(arr[:, " + IntToString(index) + "])"
    case Submatrix(rowStart, rowEnd, colStart, colEnd) =>
      var singleColumn := colEnd - colStart == 1;
      var singleRow := rowEnd - rowStart == 1;
      if singleColumn && singleRow then
        "arr = " + arr + "\nprint(arr[" + IntToString(rowStart) + ", " + IntToString(colStart) + "])"
      else if singleColumn then
        "arr = " + arr + "\nprint(arr[" + IntToString(rowStart) + ":" + IntToString(rowEnd) + ", " + IntToString(colStart) + "])"
      else if singleRow then
        "arr = " + arr + "\nprint(arr[" + IntToString(rowStart) + ", " + IntToString(colStart) + ":" + IntToString(colEnd) + "])"
      else
        "arr = " + arr + "\nprint(arr[" + IntToString(rowStart) + ":" + IntToString(rowEnd) + ", " + IntToString(colStart) + ":" + IntToString(colEnd) + "])"
  }

  // ---------------------------------------------------------------------
  // What the printed selection means

  /** One axis of a NumPy index: a single position, a half-open slice, or the
      whole axis (`:`). */
  datatype Axis = At(pos: int) | Span(lo: int, hi: int) | Every

  /** The index text of one axis. */
  function AxisText(a: Axis): string {
    match a
    case At(pos) => IntToString(pos)
    case Span(lo, hi) => IntToString(lo) + ":" + IntToString(hi)
    case Every => ":"
  }

  /** Position `k` of an axis of length `n` is selected by `a`, for
      non-negative positions within the axis (NumPy's negative and
      out-of-range indices are not used by the quiz). */
  predicate Selects(a: Axis, k: int, n: nat) {
    match a
    case At(pos) => k == pos
    case Span(lo, hi) => lo <= k < hi
    case Every => 0 <= k < n
  }

  /** The row part of the index the challenge's program prints. */
  function RowAxis(c: Challenge): Axis {
    match c
    case Row(index) => At(index)
    case Column(_) => Every
    case Submatrix(rs, re, _, _) => if re - rs == 1 then At(rs) else Span(rs, re)
  }

  /** The column part of the index the challenge's program prints. */
  function ColAxis(c: Challenge): Axis {
    match c
    case Row(_) => Every
    case Column(index) => At(index)
    case Submatrix(_, _, cs, ce) => if ce - cs == 1 then At(cs) else Span(cs, ce)
  }

  /** The selection `arr[<row axis>, <column axis>]` as text. */
  function IndexText(c: Challenge): string {
    AxisText(RowAxis(c)) + ", " + AxisText(ColAxis(c))
  }

  /** The second line of the program: `print(arr[<index>])`. */
  function PrintLine(c: Challenge): string {
    "print(arr[" + IndexText(c) + "])"
  }

  /** Every branch of `buildChallengePrintCode` is the assignment line
      followed by the print of `arr[<row axis>, <column axis>]`. */
  lemma PrintCodeLines(m: seq<seq<int>>, c: Challenge)
    ensures BuildChallengePrintCode(m, c) == Assignment(m) + "\n" + PrintLine(c)
  {
    var arr := NpArray(m);
    match c
    case Row(index) =>
      RebracketRow("arr = " + arr, IntToString(index));
    case Column(index) =>
      RebracketColumn("arr = " + arr, IntToString(index));
    case Submatrix(rs, re, cs, ce) =>
      if ce - cs == 1 && re - rs == 1 {
        Rebracket3("arr = " + arr, IntToString(rs), IntToString(cs));
      } else if ce - cs == 1 {
        Rebracket4("arr = " + arr, IntToString(rs), IntToString(re), IntToString(cs));
      } else if re - rs == 1 {
        Rebracket4b("arr = " + arr, IntToString(rs), IntToString(cs), IntToString(ce));
      } else {
        Rebracket5("arr = " + arr, IntToString(rs), IntToString(re), IntToString(cs), IntToString(ce));
      }
  }

  lemma RebracketRow(a: string, r: string)
    ensures a + "\nprint(arr[" + r + ", :])" == a + "\n" + ("print(arr[" + (r + ", " + ":") + "])")
  {
  }

  lemma RebracketColumn(a: string, c: string)
    ensures a + "\nprint(arr[:, " + c + "])" == a + "\n" + ("print(arr[" + (":" + ", " + c) + "])")
  {
  }

  lemma Rebracket3(a: string, r: string, c: string)
    ensures a + "\nprint(arr[" + r + ", " + c + "])" == a + "\n" + ("print(arr[" + (r + ", " + c) + "])")
  {
  }

  lemma Rebracket4(a: string, r0: string, r1: string, c: string)
    ensures a + "\nprint(arr[" + r0 + ":" + r1 + ", " + c + "])"
         == a + "\n" + ("print(arr[" + ((r0 + ":" + r1) + ", " + c) + "])")
  {
  }

  lemma Rebracket4b(a: string, r: string, c0: string, c1: string)
    ensures a + "\nprint(arr[" + r + ", " + c0 + ":" + c1 + "])"
         == a + "\n" + ("print(arr[" + (r + ", " + (c0 + ":" + c1)) + "])")
  {
  }

  lemma Rebracket5(a: string, r0: string, r1: string, c0: string, c1: string)
    ensures a + "\nprint(arr[" + r0 + ":" + r1 + ", " + c0 + ":" + c1 + "])"
         == a + "\n" + ("print(arr[" + ((r0 + ":" + r1) + ", " + (c0 + ":" + c1)) + "])")
  {
  }

  /** Within the grid, the printed selection picks exactly the highlighted
      cells: what the player is shown and what the expected answer is
      computed from are the same region. */
  lemma SelectionIsHighlight(c: Challenge, rows: nat, cols: nat, i: int, j: int)
    requires 0 <= i < rows && 0 <= j < cols
    ensures Selects(RowAxis(c), i, rows) && Selects(ColAxis(c), j, cols) <==> IsHighlighted(i, j, c)
  {
  }

  // ---------------------------------------------------------------------
  // Shape of the program: two lines and one `print(`

  /** The number of places where `print(` starts in `s`. */
  function CountPrints(s: string): nat {
    if |s| < 6 then 0 else (if s[..6] == "print(" then 1 else 0) + CountPrints(s[1..])
  }

  /** Text without the letter `i` contains no `print(`. */
  lemma {:induction false} NoPrintWithoutI(s: string)
    requires 'i' !in s
    ensures CountPrints(s) == 0
  {
    if |s| >= 6 {
      assert s[..6][2] == s[2] != 'i';
      NoPrintWithoutI(s[1..]);
    }
  }

  /** Text without the letter `p` cannot start a `print(`, so it adds none
      in front of `t`. */
  lemma {:induction false} PrintsAfterNoP(x: string, t: string)
    requires 'p' !in x
    ensures CountPrints(x + t) == CountPrints(t)
  {
    if |x| > 0 {
      var s := x + t;
      assert s[0] == x[0] != 'p';
      if |s| >= 6 {
        assert s[..6][0] == s[0];
      }
      TailOfConcat(x, t);
      PrintsAfterNoP(x[1..], t);
    } else {
      assert x + t == t;
    }
  }

  /** Text without the letter `i` that ends in a line break adds no
      `print(` in front of `t`. */
  lemma {:induction false} PrintsAfterLine(x: string, t: string)
    requires 'i' !in x && (|x| == 0 || x[|x| - 1] == '\n')
    ensures CountPrints(x + t) == CountPrints(t)
  {
    if |x| > 0 {
      var s := x + t;
      if |s| >= 6 {
        if |x| >= 3 {
          assert s[..6][2] == x[2];
        } else if |x| == 2 {
          assert s[..6][1] == x[1];
        } else {
          assert s[..6][0] == x[0];
        }
      }
      TailOfConcat(x, t);
      PrintsAfterLine(x[1..], t);
    } else {
      assert x + t == t;
    }
  }

  lemma TailOfConcat(x: string, t: string)
    requires |x| > 0
    ensures (x + t)[1..] == x[1..] + t
  {
  }

  /** The characters of an index: no letters and no line break. */
  lemma IndexChars(c: Challenge)
    ensures 'i' !in IndexText(c) && '\n' !in IndexText(c)
  {
    AxisChars(RowAxis(c));
    AxisChars(ColAxis(c));
  }

  lemma AxisChars(a: Axis)
    ensures 'i' !in AxisText(a) && '\n' !in AxisText(a)
  {
    match a
    case At(pos) => IntToStringChars(pos);
    case Span(lo, hi) => IntToStringChars(lo); IntToStringChars(hi);
    case Every =>
  }

  /** The assignment line has no letter `i` and no line break. */
  lemma AssignmentChars(m: seq<seq<int>>)
    ensures 'i' !in Assignment(m) && '\n' !in Assignment(m)
    ensures Assignment(m)[|Assignment(m)| - 1] == ')'
  {
    var j := JsonMatrix(m);
    JsonMatrixChars(m);
    assert 'i' !in j by {
      assert forall k :: 0 <= k < |j| ==> JsonChar(j[k]);
    }
    AssignmentSplit(m);
    Around('i', "arr = np.array(", j, ")");
    Around('\n', "arr = np.array(", j, ")");
  }

  lemma AssignmentSplit(m: seq<seq<int>>)
    ensures Assignment(m) == "arr = np.array(" + JsonMatrix(m) + ")"
  {
  }

  /** A character in none of three texts is not in their concatenation,
      which ends with the last one's last character. */
  lemma Around(c: char, a: string, j: string, b: string)
    requires c !in a && c !in j && c !in b && |b| > 0
    ensures c !in a + j + b && (a + j + b)[|a + j + b| - 1] == b[|b| - 1]
  {
  }

  /** The print line holds exactly one `print(`. */
  lemma PrintLineOnePrint(c: Challenge)
    ensures CountPrints(PrintLine(c)) == 1
    ensures '\n' !in PrintLine(c)
  {
    PrintLineCount(c);
    IndexChars(c);
    Around('\n', "print(arr[", IndexText(c), "])");
  }

  lemma PrintLineCount(c: Challenge)
    ensures CountPrints(PrintLine(c)) == 1
  {
    var rest := "arr[" + IndexText(c) + "])";
    IndexChars(c);
    PrintLineSplit(IndexText(c));
    assert 'i' !in rest;
    NoPrintWithoutI(rest);
    PrintsAfterNoP("rint(", rest);
  }

  lemma PrintLineSplit(idx: string)
    ensures var p := "print(arr[" + idx + "])";
      && |p| >= 6 && p[..6] == "print(" && p[1..] == "rint(" + ("arr[" + idx + "])")
  {
  }

  /** The program that prints the expected answer has exactly two lines,
      `arr = np.array(<JSON>)` and `print(arr[<index>])`, and exactly one
      `print(`. */
  lemma PrintCodeShape(m: seq<seq<int>>, c: Challenge)
    ensures SplitLines(BuildChallengePrintCode(m, c)) == [Assignment(m), PrintLine(c)]
    ensures CountPrints(BuildChallengePrintCode(m, c)) == 1
  {
    PrintCodeLines(m, c);
    AssignmentChars(m);
    PrintLineOnePrint(c);
    SplitLinesBreak(Assignment(m), PrintLine(c));
    SplitLinesSingle(PrintLine(c));
    var x := Assignment(m) + "\n";
    assert 'i' !in x && x[|x| - 1] == '\n';
    PrintsAfterLine(x, PrintLine(c));
  }

  // ---------------------------------------------------------------------
  // Running the player's code (`runPython`)

  /** The wrapping that turns an expression into a program printing its
      value. */
  const WrapHead: string := "__result = ("
  const WrapTail: string := ")\nprint(__result)"

  /** The program `runPython(pyodide, code, matrix)` hands to the interpreter.
      The code is trimmed; when a matrix is given (`matrix != null`, so
      `None` stands for both `null` and `undefined`) and the code does not
      start with `print(`, it is taken as an expression and wrapped so that
      its value is printed; with a matrix the program starts by assigning it
      to `arr`, followed by an empty line. */
  function RunProgram(code: string, matrix: Option<seq<seq<int>>>): (full: string)
    ensures matrix.None? ==> full == Trim(code)
    ensures matrix.Some? ==> StartsWith(full, Assignment(matrix.value) + "\n\n")
    ensures matrix.Some? && StartsWith(Trim(code), "print(") ==>
      full == Assignment(matrix.value) + "\n\n" + Trim(code)
    ensures matrix.Some? && !StartsWith(Trim(code), "print(") ==>
      full == Assignment(matrix.value) + "\n\n" + WrapHead + Trim(code) + WrapTail
  {
    var userCode := Trim(code);
    var body := if matrix.Some? && !StartsWith(userCode, "print(") then WrapHead + userCode + WrapTail else userCode;
    if matrix.Some? then
      PrefixOf(Assignment(matrix.value) + "\n\n", body);
      Assignment(matrix.value) + "\n\n" + body
    else body
  }

  lemma PrefixOf(a: string, b: string)
    ensures StartsWith(a + b, a) && (a + b)[|a|..] == b
  {
  }

  /** Removes the expression wrapping, if there is one. */
  function Unwrap(body: string): string {
    if |body| >= |WrapHead| + |WrapTail|
      && body[..|WrapHead|] == WrapHead && body[|body| - |WrapTail|..] == WrapTail
    then body[|WrapHead|..|body| - |WrapTail|]
    else body
  }

  /** The player's (trimmed) code, read back from a program built by
      `RunProgram`. */
  function UserCodeOf(full: string, matrix: Option<seq<seq<int>>>): string {
    match matrix
    case None => full
    case Some(m) =>
      var k := |Assignment(m)| + 2;
      if |full| >= k then Unwrap(full[k..]) else full
  }

  lemma UnwrapWrap(u: string)
    ensures Unwrap(WrapHead + u + WrapTail) == u
  {
    var b := WrapHead + u + WrapTail;
    assert b[..|WrapHead|] == WrapHead;
    assert b[|b| - |WrapTail|..] == WrapTail;
    assert b[|WrapHead|..|b| - |WrapTail|] == u;
  }

  /** Code starting with `print(` is not taken for a wrapped expression. */
  lemma UnwrapPrint(u: string)
    requires StartsWith(u, "print(")
    ensures Unwrap(u) == u
  {
    if |u| >= |WrapHead| + |WrapTail| {
      assert u[..|WrapHead|][0] == u[0] == u[..6][0] == 'p';
    }
  }

  /** The player's trimmed code can be read back from the program that runs
      it: the matrix assignment and the wrapping add to the code and change
      nothing in it. */
  lemma RunProgramRoundTrip(code: string, matrix: Option<seq<seq<int>>>)
    ensures UserCodeOf(RunProgram(code, matrix), matrix) == Trim(code)
  {
    if matrix.Some? {
      var userCode := Trim(code);
      var body := if !StartsWith(userCode, "print(") then WrapHead + userCode + WrapTail else userCode;
      PrefixOf(Assignment(matrix.value) + "\n\n", body);
      if StartsWith(userCode, "print(") {
        UnwrapPrint(userCode);
      } else {
        UnwrapWrap(userCode);
      }
    }
  }

  /** Whitespace around the player's code makes no difference to what runs. */
  lemma RunProgramIgnoresPadding(a: string, code: string, b: string, matrix: Option<seq<seq<int>>>)
    requires AllWs(a) && AllWs(b)
    ensures RunProgram(a + code + b, matrix) == RunProgram(code, matrix)
  {
    TrimIgnoresPadding(a, code, b);
  }

  /** A wrapped expression ends with `print(__result)`: its value is the
      last thing the program prints. */
  lemma WrappedPrintsLast(code: string, m: seq<seq<int>>)
    requires !StartsWith(Trim(code), "print(")
    ensures LastLine(RunProgram(code, Some(m))) == "print(__result)"
  {
    var pre := Assignment(m) + "\n\n" + WrapHead + Trim(code) + ")\n";
    WrapSplit(Assignment(m) + "\n\n", Trim(code));
    LastLineOf(pre, "print(__result)");
  }

  lemma WrapSplit(a: string, u: string)
    ensures a + (WrapHead + u + WrapTail) == (a + WrapHead + u + ")\n") + "print(__result)"
    ensures var p := a + WrapHead + u + ")\n"; p[|p| - 1] == '\n'
  {
  }

  /** The program printing the expected answer runs exactly as built: it is
      run without a matrix and is already trimmed. */
  lemma ChallengeProgramRunsAsBuilt(m: seq<seq<int>>, c: Challenge)
    ensures RunProgram(BuildChallengePrintCode(m, c), None) == BuildChallengePrintCode(m, c)
  {
    var code := BuildChallengePrintCode(m, c);
    PrintCodeLines(m, c);
    assert code[0] == 'a';
    assert code[|code| - 1] == ')';
    TrimOfTrimmed(code);
  }

  // ---------------------------------------------------------------------
  // Reading the expected answer (`runChallengeExpected`)

  /** What `runChallengeExpected` resolves to once the challenge's program
      has run with the given standard output and error message: a non-empty
      error is thrown; otherwise the answer is the last non-empty line of
      the trimmed output, or the trimmed output itself when there is none. */
  function ExpectedFromRun(stdout: string, error: Option<string>): (r: Result<string>)
    ensures r.Err? <==> error.Some? && |error.value| > 0
    ensures r.Err? ==> r.message == error.value
  {
    if error.Some? && |error.value| > 0 then Err(error.value)
    else
      var out := Trim(stdout);
      var lines := NonEmptyLines(SplitLines(out));
      if |lines| > 0 then Ok(lines[|lines| - 1])
      else Ok(out)
  }

  /** Without an error the expected answer is the last line of the trimmed
      output. The filter on empty lines never changes the pick, because
      trimmed output does not end with a line break. */
  lemma ExpectedIsLastLine(stdout: string, error: Option<string>)
    requires error.None? || |error.value| == 0
    ensures ExpectedFromRun(stdout, error) == Ok(LastLine(Trim(stdout)))
  {
    var out := Trim(stdout);
    var ls := SplitLines(out);
    if |out| == 0 {
      NonEmptyOfEmpties(ls);
    } else {
      LastLineOfTrimmed(out);
      NonEmptyKeepsLast(ls);
    }
  }

  /** The expected answer is the text after the last line break of the
      trimmed output, or all of it when there is no break. */
  lemma ExpectedAnswerShape(stdout: string, error: Option<string>)
    requires error.None? || |error.value| == 0
    ensures ExpectedFromRun(stdout, error).Ok?
    ensures IsLastLineOf(ExpectedFromRun(stdout, error).value, Trim(stdout))
  {
    ExpectedIsLastLine(stdout, error);
    LastLineIs(Trim(stdout));
  }

  /** The expected answer is empty exactly when the output is blank. */
  lemma ExpectedEmptyIffBlank(stdout: string, error: Option<string>)
    requires error.None? || |error.value| == 0
    ensures ExpectedFromRun(stdout, error) == Ok("") <==> AllWs(stdout)
  {
    ExpectedIsLastLine(stdout, error);
    LastLineOfTrimmed(Trim(stdout));
    TrimEmptyIffBlank(stdout);
  }

  /** When the program's last printed line is a trimmed, non-empty `x` (after
      any earlier output `p` ending with a line break), the expected answer
      is `x`. */
  lemma ExpectedOfPrintedLine(p: string, x: string, error: Option<string>)
    requires error.None? || |error.value| == 0
    requires |p| == 0 || p[|p| - 1] == '\n'
    requires |x| > 0 && Trimmed(x) && '\n' !in x
    ensures ExpectedFromRun(p + x, error) == Ok(x)
  {
    var q := TrimBeforeLine(p, x);
    ExpectedIsLastLine(p + x, error);
    LastLineOf(q, x);
  }

  /** Trimming output that ends with the trimmed line `x` leaves `x` at the
      end, after nothing or after a line break. */
  lemma TrimBeforeLine(p: string, x: string) returns (q: string)
    requires |p| == 0 || p[|p| - 1] == '\n'
    requires |x| > 0 && Trimmed(x)
    ensures Trim(p + x) == q + x
    ensures |q| == 0 || q[|q| - 1] == '\n'
  {
    if |p| == 0 {
      assert p + x == x;
      TrimOfTrimmed(x);
      q := "";
    } else if TrimStart(p) == [] {
      assert p[..|p|] == p;
      TrimStartSkips(p, x);
      TrimOfTrimmed(x);
      q := "";
    } else {
      TrimStartKeepsTail(p, x);
      q := TrimStart(p);
      TrimEndKeeps(q + x);
    }
  }

  /** The captured output is the printed lines joined with `\n`
      (`outLines.join('\n')`); when the last printed line is a trimmed,
      non-empty `x`, the expected answer is `x`, whatever was printed
      before. */
  lemma ExpectedOfOutputLines(ls: seq<string>, x: string, error: Option<string>)
    requires error.None? || |error.value| == 0
    requires |x| > 0 && Trimmed(x) && '\n' !in x
    ensures ExpectedFromRun(JoinLines(ls + [x]), error) == Ok(x)
  {
    if |ls| == 0 {
      assert ls + [x] == [x];
      ExpectedOfPrintedLine("", x, error);
      assert "" + x == x;
    } else {
      JoinAppend(ls, x);
      ExpectedOfPrintedLine(JoinLines(ls) + "\n", x, error);
    }
  }

  // ---------------------------------------------------------------------
  // The answer of a selection printed over several lines

  /** What NumPy prints for the selection `[[1, 2], [3, 4]]`: one line per
      row, the second indented by one space. */
  const TwoRowPrint: string := "[[1 2]\n [3 4]]"

  /** The answer `runChallengeExpected` reads off a two-row selection is its
      last row alone. */
  lemma TwoRowAnswerIsLastRow()
    ensures ExpectedFromRun(TwoRowPrint, None) == Ok(" [3 4]]")
  {
    assert Trimmed(TwoRowPrint);
    TrimOfTrimmed(TwoRowPrint);
    assert TwoRowPrint == "[[1 2]\n" + " [3 4]]";
    LastLineOf("[[1 2]\n", " [3 4]]");
    ExpectedIsLastLine(TwoRowPrint, None);
  }

  /** The answer as evidently intended: everything the challenge's program
      printed, trimmed, so that a selection NumPy prints over several lines
      is expected whole. A non-empty error is thrown as before. */
  function ExpectedWholeOutput(stdout: string, error: Option<string>): (r: Result<string>)
    ensures r.Err? <==> error.Some? && |error.value| > 0
    ensures r.Err? ==> r.message == error.value
  {
    if error.Some? && |error.value| > 0 then Err(error.value)
    else Ok(Trim(stdout))
  }

  /** The whole-output answer is the answer `runChallengeExpected` reads off
      exactly when the trimmed output is a single line; on output of
      several lines the two differ. */
  lemma WholeAnswerIffOneLine(stdout: string, error: Option<string>)
    requires error.None? || |error.value| == 0
    ensures ExpectedWholeOutput(stdout, error) == ExpectedFromRun(stdout, error) <==> '\n' !in Trim(stdout)
  {
    var out := Trim(stdout);
    ExpectedIsLastLine(stdout, error);
    LastLineIs(out);
    if '\n' !in out {
      assert IsLastLineOf(out, out);
      LastLineUnique(LastLine(out), out, out);
    }
  }

  /** The whole-output answer is empty exactly when the output is blank,
      so a round is ready exactly when the program printed something. */
  lemma WholeAnswerEmptyIffBlank(stdout: string, error: Option<string>)
    requires error.None? || |error.value| == 0
    ensures ExpectedWholeOutput(stdout, error) == Ok("") <==> AllWs(stdout)
  {
    TrimEmptyIffBlank(stdout);
  }
}
