/**
 The quiz's round and run logic (useCodeRunner.ts) as a state machine. A
 round draws a matrix and a challenge and then waits for the interpreter to
 compute the expected answer; a run executes the player's code and then waits
 for its output. Both waits are asynchronous, so each is split into the call
 that starts it and the completion that arrives later, carrying a ticket with
 everything the callback captured. A counter per kind of wait makes every
 completion but the latest one do nothing.
 */
module Runner {
  import opened Results
  import opened Text
  import opened Challenges
  import opened Normalize
  import opened Snippets

  /** The bounds of a drawn matrix dimension. */
  const MinMatrixSize: int := 2
  const MaxMatrixSize: int := 5

  /** `randomMatrixSize()` with its draw `k` from
      `Math.floor(Math.random() * (MAX_MATRIX_SIZE - MIN_MATRIX_SIZE + 1))`. */
  function RandomMatrixSize(k: int): int {
    MinMatrixSize + k
  }

  /** Every drawn size lies in `[2, 5]`, and every size in that range is
      drawn by some draw. */
  lemma MatrixSizeRange(k: int, n: int)
    ensures IsDraw(k, MaxMatrixSize - MinMatrixSize + 1) ==> MinMatrixSize <= RandomMatrixSize(k) <= MaxMatrixSize
    ensures MinMatrixSize <= n <= MaxMatrixSize ==>
      IsDraw(n - MinMatrixSize, MaxMatrixSize - MinMatrixSize + 1) && RandomMatrixSize(n - MinMatrixSize) == n
  {
  }

  /** The feedback shown after a run. */
  const FeedbackCorrect: string := "Correct!"
  const FeedbackWrong: string := "Not quite"

  /** What is shown as the output of a run that printed only whitespace. */
  const NoOutput: string := "(no output)"

  /** The hook's state: the React state variables and the two counters
      `runIdRef` and `roundIdRef`. A missing challenge (`null`) is `None`. */
  datatype State = State(
    matrix: seq<seq<int>>,
    challenge: Option<Challenge>,
    expectedOutput: string,
    code: string,
    output: string,
    feedback: string,
    isRunning: bool,
    runId: nat,
    roundId: nat)

  /** The state before anything happens: the initial matrix and everything
      else empty, false or zero. */
  function Initial(m: seq<seq<int>>): (s: State)
    ensures s.matrix == m && s.challenge.None? && !IsRoundReady(s) && !s.isRunning
    ensures s.runId == 0 && s.roundId == 0
  {
    State(m, None, "", "", "", "", false, 0, 0)
  }

  /** `isRoundReady`: an expected answer is known. */
  predicate IsRoundReady(s: State) {
    |s.expectedOutput| > 0
  }

  // ---------------------------------------------------------------------
  // Rounds

  /** The random draws of a new round that is not the first: the two sizes,
      one draw per cell, and the draws of the challenge. */
  datatype RoundDraws = RoundDraws(rowsDraw: int, colsDraw: int, cells: seq<seq<int>>, pick: ChallengeDraws)

  /** The draws could have come from `Math.random()`: sizes in range, one
      cell draw per cell of the drawn size, and challenge draws for the
      drawn matrix. */
  predicate ValidRoundDraws(d: RoundDraws) {
    var rows := RandomMatrixSize(d.rowsDraw);
    var cols := RandomMatrixSize(d.colsDraw);
    && IsDraw(d.rowsDraw, MaxMatrixSize - MinMatrixSize + 1)
    && IsDraw(d.colsDraw, MaxMatrixSize - MinMatrixSize + 1)
    && IsGrid(d.cells, rows, cols)
    && ValidCellDraws(d.cells, DefaultMin, DefaultMax)
    && ValidDraws(rows, cols, d.pick)
  }

  /** What the callbacks of a round capture: its number, the matrix and the
      challenge whose expected answer is being computed. */
  datatype RoundTicket = RoundTicket(id: nat, matrix: seq<seq<int>>, challenge: Challenge)

  datatype RoundStart = RoundStart(state: State, ticket: RoundTicket)

  /** The matrix of a new round: the given one in the first round
      (`matrixToUse != null`), otherwise a fresh one of drawn size. */
  function RoundMatrix(matrixToUse: Option<seq<seq<int>>>, d: RoundDraws): (m: seq<seq<int>>)
    requires matrixToUse.Some? ==> |matrixToUse.value| > 0
    requires matrixToUse.None? ==> ValidRoundDraws(d)
    ensures |m| > 0
  {
    if matrixToUse.Some? then matrixToUse.value
    else
      var rows := RandomMatrixSize(d.rowsDraw);
      var cols := RandomMatrixSize(d.colsDraw);
      GenerateIntegerMatrix(rows, cols, DefaultMin, DefaultMax, d.cells)
  }

  /** `startNewRound(matrixToUse)` up to the point where it waits for the
      expected answer: the round counter moves on, the challenge, the
      expected answer, the code, the output and the feedback are cleared,
      a drawn matrix replaces the shown one (a given matrix does not), and
      the ticket holds the round's number, matrix and challenge. The
      challenge is picked for the new matrix's row count and first row's
      length. */
  function StartNewRound(s: State, matrixToUse: Option<seq<seq<int>>>, d: RoundDraws): (r: RoundStart)
    requires matrixToUse.Some? ==> |matrixToUse.value| > 0
    requires matrixToUse.None? ==> ValidRoundDraws(d)
    ensures r.state.roundId == s.roundId + 1 && r.ticket.id == r.state.roundId
    ensures r.state.runId == s.runId && r.state.isRunning == s.isRunning
    ensures r.state.challenge.None? && !IsRoundReady(r.state)
    ensures r.state.code == "" && r.state.output == "" && r.state.feedback == ""
    ensures r.state.matrix == if matrixToUse.Some? then s.matrix else r.ticket.matrix
    ensures matrixToUse.Some? ==> r.ticket.matrix == matrixToUse.value
  {
    var newMatrix := RoundMatrix(matrixToUse, d);
    var newChallenge := PickRandomChallenge(|newMatrix|, |newMatrix[0]|, d.pick);
    var id := s.roundId + 1;
    var cleared := s.(feedback := "", output := "", code := "", challenge := None, expectedOutput := "", roundId := id);
    var next := if matrixToUse.Some? then cleared else cleared.(matrix := newMatrix);
    RoundStart(next, RoundTicket(id, newMatrix, newChallenge))
  }

  /** The completion of a round's wait. `Ok(expected)` is the answer
      `runChallengeExpected` resolved to; `Err` covers a failure to load the
      interpreter and an error thrown by the challenge's program. Only the
      latest round applies: its challenge and answer are shown, or the
      answer is cleared on failure. Any other completion changes nothing. */
  function CompleteRound(s: State, t: RoundTicket, outcome: Result<string>): (r: State)
    ensures t.id != s.roundId ==> r == s
    ensures r.(challenge := s.challenge, expectedOutput := s.expectedOutput) == s
    ensures t.id == s.roundId ==> (IsRoundReady(r) <==> outcome.Ok? && |outcome.value| > 0)
    ensures t.id == s.roundId && outcome.Ok? ==>
      r.challenge == Some(t.challenge) && r.expectedOutput == outcome.value
    ensures t.id == s.roundId && outcome.Err? ==> r == s.(expectedOutput := "")
  {
    if t.id != s.roundId then s
    else match outcome
      case Ok(expected) => s.(challenge := Some(t.challenge), expectedOutput := expected)
      case Err(_) => s.(expectedOutput := "")
  }

  /** A drawn round's challenge fits its matrix, which holds single digits
      and is what the player is shown. */
  lemma DrawnRoundFits(s: State, d: RoundDraws)
    requires ValidRoundDraws(d)
    ensures var r := StartNewRound(s, None, d);
      var rows := RandomMatrixSize(d.rowsDraw);
      var cols := RandomMatrixSize(d.colsDraw);
      && r.state.matrix == r.ticket.matrix
      && IsGrid(r.ticket.matrix, rows, cols)
      && EntriesWithin(r.ticket.matrix, DefaultMin, DefaultMax)
      && InBounds(r.ticket.challenge, rows, cols)
  {
    var rows := RandomMatrixSize(d.rowsDraw);
    var cols := RandomMatrixSize(d.colsDraw);
    GeneratedEntriesWithin(rows, cols, DefaultMin, DefaultMax, d.cells);
    PickInBounds(rows, cols, d.pick);
  }

  /** In the first round the given matrix is the one shown (as it is when
      the current matrix is passed in), and a challenge picked for it fits
      a rectangular matrix. */
  lemma FirstRoundFits(s: State, d: RoundDraws)
    requires |s.matrix| > 0 && |s.matrix[0]| > 0 && IsGrid(s.matrix, |s.matrix|, |s.matrix[0]|)
    requires ValidDraws(|s.matrix|, |s.matrix[0]|, d.pick)
    ensures var r := StartNewRound(s, Some(s.matrix), d);
      && r.state.matrix == r.ticket.matrix == s.matrix
      && InBounds(r.ticket.challenge, |s.matrix|, |s.matrix[0]|)
  {
    PickInBounds(|s.matrix|, |s.matrix[0]|, d.pick);
  }

  /** Only the latest round is ever applied: once another round has started,
      the completion of an earlier one changes nothing. */
  lemma EarlierRoundIgnored(s: State, t: RoundTicket, matrixToUse: Option<seq<seq<int>>>, d: RoundDraws, outcome: Result<string>)
    requires matrixToUse.Some? ==> |matrixToUse.value| > 0
    requires matrixToUse.None? ==> ValidRoundDraws(d)
    requires t.id <= s.roundId
    ensures var next := StartNewRound(s, matrixToUse, d).state;
      CompleteRound(next, t, outcome) == next
  {
  }

  /** A round becomes ready exactly when its own completion brings a
      non-empty answer, and then shows the challenge the answer belongs
      to. */
  lemma RoundReadyIff(s: State, t: RoundTicket, outcome: Result<string>)
    requires !IsRoundReady(s)
    ensures var r := CompleteRound(s, t, outcome);
      IsRoundReady(r) <==> t.id == s.roundId && outcome.Ok? && |outcome.value| > 0
    ensures var r := CompleteRound(s, t, outcome);
      IsRoundReady(r) ==> r.challenge == Some(t.challenge)
  {
  }

  // ---------------------------------------------------------------------
  // Runs

  /** What the callbacks of a run capture: its number and the code, matrix
      and expected answer as they were when the run started. */
  datatype RunTicket = RunTicket(id: nat, code: string, matrix: seq<seq<int>>, expected: string)

  datatype RunStart = NoRun | RunStarted(state: State, ticket: RunTicket)

  /** `runCode()` up to the point where it waits for the output: nothing
      happens while no expected answer is known; otherwise the output and
      feedback are cleared, the run is marked as running and the run
      counter moves on. */
  function RunCode(s: State): (r: RunStart)
    ensures r.NoRun? <==> !IsRoundReady(s)
    ensures r.RunStarted? ==>
      && r.state.runId == s.runId + 1 && r.ticket.id == r.state.runId
      && r.state.isRunning && r.state.output == "" && r.state.feedback == ""
      && r.state.roundId == s.roundId && r.state.expectedOutput == s.expectedOutput
      && r.ticket == RunTicket(r.state.runId, s.code, s.matrix, s.expectedOutput)
    ensures r.RunStarted? ==>
      r.state == s.(output := "", feedback := "", isRunning := true, runId := s.runId + 1)
  {
    if s.expectedOutput == "" then NoRun
    else
      var id := s.runId + 1;
      RunStarted(s.(output := "", feedback := "", isRunning := true, runId := id),
                 RunTicket(id, s.code, s.matrix, s.expectedOutput))
  }

  /** How a run ended: the interpreter ran the program, with its captured
      output and possibly an error message, or the interpreter could not be
      loaded. */
  datatype RunOutcome = Ran(stdout: string, error: Option<string>) | Failed(message: string)

  /** The state after a run's completion, and whether the answer was
      correct, which records a play and starts the next round after a
      pause. */
  datatype RunEnd = RunEnd(state: State, advance: bool)

  /** An error message is reported when there is one and it is not empty
      (`if (error)`). */
  predicate HasError(error: Option<string>) {
    error.Some? && |error.value| > 0
  }

  /** The completion of a run. A run that is no longer the latest changes
      nothing. Otherwise an error is shown as `Error: <message>` with the
      wrong-answer feedback; output is shown as printed (or as a
      placeholder when blank), and its trimmed text is compared with the
      trimmed expected answer the run captured. Either way the run stops. */
  function CompleteRun(s: State, t: RunTicket, outcome: RunOutcome, numericClose: (string, string) -> bool): (r: RunEnd)
    ensures t.id != s.runId ==> r == RunEnd(s, false)
    ensures t.id == s.runId ==>
      && !r.state.isRunning
      && r.state == s.(output := r.state.output, feedback := r.state.feedback, isRunning := false)
      && (r.advance <==> r.state.feedback == FeedbackCorrect)
  {
    if t.id != s.runId then RunEnd(s, false)
    else match outcome
      case Failed(message) =>
        RunEnd(s.(output := "Error: " + message, feedback := FeedbackWrong, isRunning := false), false)
      case Ran(stdout, error) =>
        if HasError(error) then
          RunEnd(s.(output := "Error: " + error.value, feedback := FeedbackWrong, isRunning := false), false)
        else
          var userOut := Trim(stdout);
          var displayOut := if Trim(stdout) != "" then stdout else NoOutput;
          var isCorrect := OutputsMatch(userOut, Trim(t.expected), numericClose);
          RunEnd(s.(output := displayOut, feedback := if isCorrect then FeedbackCorrect else FeedbackWrong,
                    isRunning := false), isCorrect)
  }

  /** A latest run that printed without error is judged correct exactly
      when its trimmed output matches the trimmed answer it captured, and
      its output is shown as printed unless it is blank. */
  lemma RunJudged(s: State, t: RunTicket, stdout: string, error: Option<string>, numericClose: (string, string) -> bool)
    requires t.id == s.runId && !HasError(error)
    ensures var r := CompleteRun(s, t, Ran(stdout, error), numericClose);
      && (r.advance <==> OutputsMatch(Trim(stdout), Trim(t.expected), numericClose))
      && (r.state.output == NoOutput <==> AllWs(stdout) || stdout == NoOutput)
      && (!AllWs(stdout) ==> r.state.output == stdout)
  {
    TrimEmptyIffBlank(stdout);
  }

  /** Errors and interpreter failures are never judged correct: the output
      is `Error: ` followed by the message and the feedback is the
      wrong-answer one. */
  lemma ErrorsAreWrong(s: State, t: RunTicket, outcome: RunOutcome, numericClose: (string, string) -> bool)
    requires t.id == s.runId && (outcome.Failed? || HasError(outcome.error))
    ensures var r := CompleteRun(s, t, outcome, numericClose);
      && !r.advance && r.state.feedback == FeedbackWrong && StartsWith(r.state.output, "Error: ")
      && r.state.output == "Error: " + (if outcome.Failed? then outcome.message else outcome.error.value)
  {
  }

  /** Only the latest run is ever applied: once another run has started,
      the completion of an earlier one changes nothing, and in particular
      does not stop the newer run. */
  lemma EarlierRunIgnored(s: State, t: RunTicket, outcome: RunOutcome, numericClose: (string, string) -> bool)
    requires t.id <= s.runId && RunCode(s).RunStarted?
    ensures var next := RunCode(s).state;
      CompleteRun(next, t, outcome, numericClose) == RunEnd(next, false)
      && next.isRunning
  {
  }

  /** Starting a round does not touch the run counter, so a run started in
      the previous round is still the latest afterwards: its completion is
      applied to the new round and, when judged correct, starts yet
      another round. */
  lemma RunOutlivesRound(s: State, matrixToUse: Option<seq<seq<int>>>, d: RoundDraws, outcome: RunOutcome, numericClose: (string, string) -> bool)
    requires matrixToUse.Some? ==> |matrixToUse.value| > 0
    requires matrixToUse.None? ==> ValidRoundDraws(d)
    requires RunCode(s).RunStarted?
    ensures var started := RunCode(s);
      var next := StartNewRound(started.state, matrixToUse, d).state;
      && next.isRunning
      && !CompleteRun(next, started.ticket, outcome, numericClose).state.isRunning
  {
  }

  /** A run compares against the answer it captured, even when the round
      has moved on since: a textually equal output is judged correct
      against the captured answer. */
  lemma RunUsesCapturedAnswer(s: State, t: RunTicket, numericClose: (string, string) -> bool)
    requires t.id == s.runId && |Trim(t.expected)| > 0
    ensures CompleteRun(s, t, Ran(t.expected, None), numericClose).advance
  {
    OutputsMatchSelf(Trim(t.expected), numericClose);
  }

  /** `setCode`: the player edits the code; nothing else changes. */
  function SetCode(s: State, code: string): (r: State)
    ensures r.code == code && r.(code := s.code) == s
  {
    s.(code := code)
  }

  // ---------------------------------------------------------------------
  // A round whose answer is printed over several lines

  /** A player who prints the two-row selection exactly as the challenge's
      program printed it is not judged correct against its last row: the
      second visible character is `[` in the whole print and in its first
      line, but `3` in the answer. */
  lemma TwoRowPrintDoesNotMatch()
    ensures !OutputsMatch(Trim(TwoRowPrint), Trim(" [3 4]]"), NoNumericMatch)
  {
    var answer := Trim(" [3 4]]");
    TwoRowShape();
    TwoRowSecondVisible();
    FirstRowSecondVisible();
    LastRowSecondVisible();
    VisibleTrim(" [3 4]]");
    if OutputsMatch(Trim(TwoRowPrint), answer, NoNumericMatch) {
      TextualMatchSameVisible(TwoRowPrint, answer);
    }
  }

  /** The two-row print is its own trimmed form, and its first line is its
      first row. */
  lemma TwoRowShape()
    ensures Trim(TwoRowPrint) == TwoRowPrint
    ensures FirstLine(TwoRowPrint) == "[[1 2]"
  {
    assert Trimmed(TwoRowPrint);
    TrimOfTrimmed(TwoRowPrint);
    assert TwoRowPrint == "[[1 2]" + "\n" + " [3 4]]";
    FirstLineBeforeBreak("[[1 2]", " [3 4]]");
  }

  lemma FirstRowSecondVisible()
    ensures |Visible("[[1 2]")| >= 2 && Visible("[[1 2]")[1] == '['
  {
  }

  lemma LastRowSecondVisible()
    ensures |Visible(" [3 4]]")| >= 2 && Visible(" [3 4]]")[1] == '3'
  {
  }

  /** The visible characters of the two-row print start with those of its
      first row. */
  lemma TwoRowSecondVisible()
    ensures |Visible(TwoRowPrint)| >= 2 && Visible(TwoRowPrint)[1] == '['
  {
    assert TwoRowPrint == "[[1 2]" + "\n" + " [3 4]]";
    VisibleConcat("[[1 2]" + "\n", " [3 4]]");
    VisibleConcat("[[1 2]", "\n");
    FirstRowSecondVisible();
  }

  /** As written, once a round's answer program has printed a two-row
      selection, the round is ready, yet a run printing exactly that
      selection is judged wrong. */
  lemma TwoRowRoundRejectsItsOwnOutput(s: State, t: RoundTicket)
    requires t.id == s.roundId
    ensures var ready := CompleteRound(s, t, ExpectedFromRun(TwoRowPrint, None));
      && RunCode(ready).RunStarted?
      && !CompleteRun(RunCode(ready).state, RunCode(ready).ticket, Ran(TwoRowPrint, None), NoNumericMatch).advance
  {
    TwoRowAnswerIsLastRow();
    TwoRowPrintDoesNotMatch();
  }

  /** With the answer taken from the whole trimmed output, a round is ready
      exactly when its program printed something, and then a run printing
      exactly what that program printed is judged correct, whatever the
      number of lines. */
  lemma WholeAnswerRoundAcceptsItsOwnOutput(s: State, t: RoundTicket, stdout: string, numericClose: (string, string) -> bool)
    requires t.id == s.roundId
    ensures var ready := CompleteRound(s, t, ExpectedWholeOutput(stdout, None));
      && (RunCode(ready).RunStarted? <==> !AllWs(stdout))
      && (RunCode(ready).RunStarted? ==>
            CompleteRun(RunCode(ready).state, RunCode(ready).ticket, Ran(stdout, None), numericClose).advance)
  {
    var answer := Trim(stdout);
    var ready := CompleteRound(s, t, ExpectedWholeOutput(stdout, None));
    assert ready.expectedOutput == answer;
    WholeAnswerEmptyIffBlank(stdout, None);
    if RunCode(ready).RunStarted? {
      var run := RunCode(ready);
      assert run.ticket.expected == answer && run.ticket.id == run.state.runId;
      TrimOfTrimmed(answer);
      OutputsMatchSelf(answer, numericClose);
      RunJudged(run.state, run.ticket, stdout, None, numericClose);
    }
  }

  // ---------------------------------------------------------------------
  // Recording a play after a correct run

  /** How the synchronous start of `recordPlayCount()` ended: it returned,
      or `getAnonymousId()` threw with a message (storage access refused,
      or no `crypto.randomUUID` outside a secure context). The requests it
      then sends are fire-and-forget and are not modelled. */
  datatype Recording = Recorded | RecordThrew(message: string)

  /** The completion of a run as written: a correct run calls
      `recordPlayCount()` inside the same callback, so a throw from it
      reaches the run's `.catch`, which shows `Error: <message>` with the
      wrong-answer feedback, and the next round is never scheduled. */
  function CompleteRunAsWritten(s: State, t: RunTicket, outcome: RunOutcome, numericClose: (string, string) -> bool, rec: Recording): (r: RunEnd)
    ensures rec.Recorded? ==> r == CompleteRun(s, t, outcome, numericClose)
    ensures r.advance ==> CompleteRun(s, t, outcome, numericClose).advance
  {
    var e := CompleteRun(s, t, outcome, numericClose);
    if e.advance && rec.RecordThrew? then
      RunEnd(e.state.(output := "Error: " + rec.message, feedback := FeedbackWrong), false)
    else e
  }

  /** As written, a run judged correct whose play recording throws is shown
      as an error with the wrong-answer feedback and does not advance. */
  lemma RecordThrowLosesCorrectRun(s: State, t: RunTicket, stdout: string, numericClose: (string, string) -> bool, message: string)
    requires t.id == s.runId && OutputsMatch(Trim(stdout), Trim(t.expected), numericClose)
    ensures CompleteRun(s, t, Ran(stdout, None), numericClose).advance
    ensures var r := CompleteRunAsWritten(s, t, Ran(stdout, None), numericClose, RecordThrew(message));
      && !r.advance && r.state.feedback == FeedbackWrong
      && r.state.output == "Error: " + message && !r.state.isRunning
  {
    RunJudged(s, t, stdout, None, numericClose);
  }

  /** The completion of a run with play recording fire-and-forget, as
      evidently intended: a throw from `recordPlayCount()` is caught on its
      own and changes nothing, so the run ends as `CompleteRun` says. */
  function CompleteRunNonBlocking(s: State, t: RunTicket, outcome: RunOutcome, numericClose: (string, string) -> bool, rec: Recording): (r: RunEnd)
    ensures rec.Recorded? ==> r == CompleteRunAsWritten(s, t, outcome, numericClose, rec)
  {
    CompleteRun(s, t, outcome, numericClose)
  }

  /** With non-blocking recording, the verdict of a latest error-free run
      never depends on how recording ended: it advances exactly when its
      output matches the captured answer. */
  lemma RecordingNeverBlocks(s: State, t: RunTicket, stdout: string, numericClose: (string, string) -> bool, rec: Recording)
    requires t.id == s.runId
    ensures var r := CompleteRunNonBlocking(s, t, Ran(stdout, None), numericClose, rec);
      && (r.advance <==> OutputsMatch(Trim(stdout), Trim(t.expected), numericClose))
      && (r.advance <==> r.state.feedback == FeedbackCorrect)
      && r == CompleteRunNonBlocking(s, t, Ran(stdout, None), numericClose, Recorded)
  {
    RunJudged(s, t, stdout, None, numericClose);
  }
}
