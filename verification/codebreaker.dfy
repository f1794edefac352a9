/**
 * The Codebreaker engine (games/codebreaker/script.js): a secret of four
 * digits, six attempts, a newest-first history of scored guesses, and the
 * two filters that keep the four input cells numeric.
 *
 * `Board` is the engine's state as a value and `Submit` the effect of one
 * call of `submitGuess`; class `CodebreakerGame` holds the same state in
 * fields and its methods are proved to follow `Board`/`Submit`. The cells'
 * texts are a parameter of `submitGuess` (they live in the page); the secret
 * that `Math.random` would draw is a parameter of `initializeGame`.
 */
module Codebreaker {
  import opened CodeScore

  const MaxAttempts: int := 6

  // ---------------------------------------------------------------------
  // Cell texts
  // ---------------------------------------------------------------------

  /** `\d` of a JavaScript regular expression without the `u` flag. */
  predicate IsDigit(c: char) { '0' <= c <= '9' }

  predicate AllDigits(s: string) { forall i :: 0 <= i < |s| ==> IsDigit(s[i]) }

  /** The `input` listener of a cell: a text that is not all digits
      (`/^\d*$/`) is wiped. */
  function FilterCell(value: string): (r: string)
    ensures AllDigits(r)
    ensures AllDigits(value) <==> r == value
    ensures !AllDigits(value) ==> r == ""
  {
    if AllDigits(value) then value else ""
  }

  /** `replace(/\D/g, '')`: the digits of s, in order. With `StripConcat`,
      the one-character cases below determine the function: a digit stays,
      any other character is removed. */
  function StripNonDigits(s: string): (r: string)
    ensures AllDigits(r) && |r| <= |s|
    ensures |s| == 1 && IsDigit(s[0]) ==> r == s
    ensures |s| == 1 && !IsDigit(s[0]) ==> r == []
    decreases |s|
  {
    if s == [] then []
    else (if IsDigit(s[0]) then [s[0]] else []) + StripNonDigits(s[1..])
  }

  /** Stripping works character by character: it distributes over
      concatenation. */
  lemma {:induction false} StripConcat(a: string, b: string)
    ensures StripNonDigits(a + b) == StripNonDigits(a) + StripNonDigits(b)
    decreases |a|
  {
    if a != [] {
      assert (a + b)[1..] == a[1..] + b;
      StripConcat(a[1..], b);
      var head := if IsDigit(a[0]) then [a[0]] else [];
      assert (a + b)[0] == a[0];
      assert StripNonDigits(a + b) == head + StripNonDigits(a[1..] + b);
      assert StripNonDigits(a) == head + StripNonDigits(a[1..]);
      assert head + (StripNonDigits(a[1..]) + StripNonDigits(b))
          == (head + StripNonDigits(a[1..])) + StripNonDigits(b);
    } else {
      assert a + b == b;
    }
  }

  /** A text of digits only is left as it is. */
  lemma {:induction false} StripKeepsDigits(s: string)
    requires AllDigits(s)
    ensures StripNonDigits(s) == s
    decreases |s|
  {
    if s != [] {
      StripKeepsDigits(s[1..]);
    }
  }

  /** The paste handler's sanitiser: `replace(/\D/g, '').slice(0, 4)`. */
  function SanitizePaste(paste: string): (numbers: string)
    ensures AllDigits(numbers) && |numbers| <= CodeLength
    ensures numbers <= StripNonDigits(paste)
    ensures |numbers| == Min(CodeLength, |StripNonDigits(paste)|)
  {
    var digits := StripNonDigits(paste);
    if |digits| <= CodeLength then digits else digits[..CodeLength]
  }

  /** Sanitising twice gives what sanitising once gives. */
  lemma SanitizeIdempotent(paste: string)
    ensures SanitizePaste(SanitizePaste(paste)) == SanitizePaste(paste)
  {
    StripKeepsDigits(SanitizePaste(paste));
  }

  /** The paste handler's loop: cell i receives the i-th sanitised digit, the
      cells past the pasted digits keep their text. */
  function PasteCells(cells: seq<string>, paste: string): (r: seq<string>)
    requires |cells| == CodeLength
    ensures |r| == CodeLength
    ensures forall i :: 0 <= i < Min(CodeLength, |StripNonDigits(paste)|) ==>
      r[i] == [StripNonDigits(paste)[i]]
    ensures forall i :: Min(CodeLength, |StripNonDigits(paste)|) <= i < CodeLength ==>
      r[i] == cells[i]
  {
    var numbers := SanitizePaste(paste);
    seq(CodeLength, i requires 0 <= i < CodeLength =>
      if i < |numbers| then [numbers[i]] else cells[i])
  }

  /** Pasting keeps every cell numeric. Cell i below the number of pasted
      digits (at most four) receives the i-th digit of the paste, and the
      cells past them keep their text; a paste with four or more digits
      thus fills all four cells with its first four digits. */
  lemma PasteKeepsCellsNumeric(cells: seq<string>, paste: string)
    requires |cells| == CodeLength
    requires forall i :: 0 <= i < CodeLength ==> AllDigits(cells[i])
    ensures forall i :: 0 <= i < CodeLength ==> AllDigits(PasteCells(cells, paste)[i])
    ensures forall i :: 0 <= i < Min(CodeLength, |StripNonDigits(paste)|) ==>
      PasteCells(cells, paste)[i] == [StripNonDigits(paste)[i]]
    ensures forall i :: Min(CodeLength, |StripNonDigits(paste)|) <= i < CodeLength ==>
      PasteCells(cells, paste)[i] == cells[i]
    ensures |StripNonDigits(paste)| >= CodeLength ==>
      forall i :: 0 <= i < CodeLength ==> PasteCells(cells, paste)[i] == [StripNonDigits(paste)[i]]
  {
  }

  /** `Number` of a text of digits: its decimal value. */
  function DecimalValue(s: string): (n: nat)
    requires AllDigits(s)
    ensures |s| == 1 ==> n == s[0] as int - '0' as int
    decreases |s|
  {
    if s == [] then 0
    else DecimalValue(s[..|s| - 1]) * 10 + (s[|s| - 1] as int - '0' as int)
  }

  /** `guess.map(Number)` for the four cells. */
  function GuessValues(cells: seq<string>): (values: seq<int>)
    requires ValidCells(cells)
    ensures |values| == CodeLength
    ensures forall i :: 0 <= i < CodeLength ==> values[i] >= 0
  {
    seq(CodeLength, i requires 0 <= i < CodeLength => DecimalValue(cells[i]))
  }

  /** The four cells as the input filter leaves them. */
  predicate ValidCells(cells: seq<string>)
  {
    |cells| == CodeLength && forall i :: 0 <= i < CodeLength ==> AllDigits(cells[i])
  }

  /** `guess.some(digit => digit === '')`. */
  predicate SomeEmpty(cells: seq<string>)
  {
    exists i :: 0 <= i < |cells| && cells[i] == ""
  }

  // ---------------------------------------------------------------------
  // The game state and one submission
  // ---------------------------------------------------------------------

  /** A code `initializeGame` can draw: four digits 0..9. */
  predicate IsCode(s: seq<int>)
  {
    |s| == CodeLength && forall i :: 0 <= i < |s| ==> 0 <= s[i] <= 9
  }

  /** `feedback.every(f => f === 'correct')`. */
  predicate AllCorrect(marks: seq<Mark>)
  {
    forall i :: 0 <= i < |marks| ==> marks[i] == Correct
  }

  /** One history item: the attempt number shown, the cells and their marks. */
  datatype Entry = Entry(number: int, cells: seq<string>, marks: seq<Mark>)

  /** `secretCode`, `attempts`, `gameActive` and the history list, newest first. */
  datatype Board = Board(secretCode: seq<int>, attempts: int, gameActive: bool, history: seq<Entry>)

  /** The values the script starts with, before `initializeGame` runs. */
  const Initial: Board := Board([], 0, false, [])

  /** An entry holds a complete guess scored against the secret. */
  predicate ScoredAgainst(secret: seq<int>, e: Entry)
    requires IsCode(secret)
  {
    ValidCells(e.cells) && !SomeEmpty(e.cells) &&
    e.marks == Score(secret, GuessValues(e.cells))
  }

  /**
   * The history list read newest first: entry 0 is attempt n, entry 1 attempt
   * n - 1 and so on down to attempt 1; every entry is scored against the
   * secret, and no entry but the newest is a win.
   */
  predicate Logged(secret: seq<int>, history: seq<Entry>, n: int)
    requires IsCode(secret)
    decreases |history|
  {
    if history == [] then n == 0
    else
      && history[0].number == n
      && ScoredAgainst(secret, history[0])
      && (|history| > 1 ==> !AllCorrect(history[1].marks))
      && Logged(secret, history[1..], n - 1)
  }

  /** What `Logged` says about each entry. */
  lemma {:induction false} LoggedEntries(secret: seq<int>, history: seq<Entry>, n: int, k: nat)
    requires IsCode(secret) && Logged(secret, history, n) && k < |history|
    ensures n == |history|
    ensures history[k].number == n - k
    ensures ScoredAgainst(secret, history[k])
    ensures k > 0 ==> !AllCorrect(history[k].marks)
    decreases |history|
  {
    if k > 0 {
      LoggedEntries(secret, history[1..], n - 1, k - 1);
    } else if |history| > 1 {
      LoggedEntries(secret, history[1..], n - 1, 0);
    }
  }

  /**
   * The engine's invariant: the counter never passes six and an active game
   * has attempts left; the history holds one entry per attempt, newest first,
   * each scored against the current secret; no entry of an active game is a
   * win, and a finished game ended on a win or on its sixth attempt.
   */
  predicate Inv(b: Board)
  {
    && 0 <= b.attempts <= MaxAttempts
    && (b.gameActive ==> b.attempts < MaxAttempts)
    && |b.history| == b.attempts
    && (if IsCode(b.secretCode) then Logged(b.secretCode, b.history, b.attempts)
        else b.secretCode == [] && b.attempts == 0 && !b.gameActive)
    && (b.gameActive && b.attempts > 0 ==> !AllCorrect(b.history[0].marks))
    && (!b.gameActive && b.attempts > 0 ==> AllCorrect(b.history[0].marks) || b.attempts == MaxAttempts)
  }

  /** `initializeGame` with the drawn code. */
  function Start(code: seq<int>): (b: Board)
    requires IsCode(code)
    ensures Inv(b) && b.gameActive && b.attempts == 0 && b.history == [] && b.secretCode == code
  {
    Board(code, 0, true, [])
  }

  /** How an accepted guess leaves the game. */
  datatype Ending = Playing | Won | Lost

  /** The effect of `submitGuess` as seen by the player. */
  datatype SubmitResult = Inactive | Incomplete | Scored(marks: seq<Mark>, ending: Ending)

  /** `submitGuess`: guard, completeness check, count, score, log, end test. */
  function Submit(b: Board, cells: seq<string>): (res: (Board, SubmitResult))
    requires b.gameActive ==> |b.secretCode| == CodeLength
    requires ValidCells(cells)
    ensures res.0.secretCode == b.secretCode
    ensures b.attempts <= res.0.attempts <= b.attempts + 1
  {
    if !b.gameActive then (b, Inactive)
    else if SomeEmpty(cells) then (b, Incomplete)
    else
      var attempts := b.attempts + 1;
      var marks := Score(b.secretCode, GuessValues(cells));
      var history := [Entry(attempts, cells, marks)] + b.history;
      if AllCorrect(marks) then (Board(b.secretCode, attempts, false, history), Scored(marks, Won))
      else if attempts >= MaxAttempts then (Board(b.secretCode, attempts, false, history), Scored(marks, Lost))
      else (Board(b.secretCode, attempts, true, history), Scored(marks, Playing))
  }

  /** `submitGuess` keeps the engine's invariant: the new entry is scored
      against the secret and numbered with the new count, the older entries
      move one place back, and the game ends on a win or on attempt six. */
  lemma SubmitKeepsInv(b: Board, cells: seq<string>)
    requires Inv(b) && ValidCells(cells)
    ensures Inv(Submit(b, cells).0)
  {
    if b.gameActive && !SomeEmpty(cells) {
      var next := Submit(b, cells).0;
      assert next.history[1..] == b.history;
    }
  }

  /** The cases of `submitGuess`, each with the state it leaves. */
  lemma SubmitCases(b: Board, cells: seq<string>)
    requires b.gameActive ==> |b.secretCode| == CodeLength
    requires ValidCells(cells)
    ensures !b.gameActive ==> Submit(b, cells) == (b, Inactive)
    ensures b.gameActive && SomeEmpty(cells) ==> Submit(b, cells) == (b, Incomplete)
    ensures b.gameActive && !SomeEmpty(cells) ==>
      var next := Submit(b, cells).0;
      var result := Submit(b, cells).1;
      && result.Scored?
      && result.marks == Score(b.secretCode, GuessValues(cells))
      && next.attempts == b.attempts + 1
      && next.history == [Entry(next.attempts, cells, result.marks)] + b.history
      && (result.ending == Won <==> GuessValues(cells) == b.secretCode)
      && (result.ending == Lost <==> GuessValues(cells) != b.secretCode && next.attempts >= MaxAttempts)
      && (next.gameActive <==> result.ending == Playing)
  {
    if b.gameActive && !SomeEmpty(cells) {
      var values := GuessValues(cells);
      var marks := Score(b.secretCode, values);
      AllCorrectIffEqual(b.secretCode, values);
      var attempts := b.attempts + 1;
      var history := [Entry(attempts, cells, marks)] + b.history;
      if AllCorrect(marks) {
        assert Submit(b, cells) == (Board(b.secretCode, attempts, false, history), Scored(marks, Won));
      } else if attempts >= MaxAttempts {
        assert Submit(b, cells) == (Board(b.secretCode, attempts, false, history), Scored(marks, Lost));
      } else {
        assert Submit(b, cells) == (Board(b.secretCode, attempts, true, history), Scored(marks, Playing));
      }
    }
  }

  /** With one digit per cell, the guess wins exactly when the cells spell
      the secret code. */
  lemma WinIffCellsSpellSecret(secret: seq<int>, cells: seq<string>)
    requires IsCode(secret) && ValidCells(cells)
    requires forall i :: 0 <= i < CodeLength ==> |cells[i]| == 1
    ensures AllCorrect(Score(secret, GuessValues(cells))) <==>
      forall i :: 0 <= i < CodeLength ==> cells[i] == [('0' as int + secret[i]) as char]
  {
    var values := GuessValues(cells);
    if forall i :: 0 <= i < CodeLength ==> cells[i] == [('0' as int + secret[i]) as char] {
      assert forall i :: 0 <= i < CodeLength ==> values[i] == secret[i];
    }
    if values == secret {
      forall i | 0 <= i < CodeLength
        ensures cells[i] == [('0' as int + secret[i]) as char]
      {
        assert cells[i][0] as int - '0' as int == secret[i];
      }
    }
  }

  // ---------------------------------------------------------------------
  // The script's module-level state
  // ---------------------------------------------------------------------

  class CodebreakerGame {
    var secretCode: seq<int>
    var attempts: int
    var gameActive: bool
    var history: seq<Entry>

    function State(): Board
      reads this
    {
      Board(secretCode, attempts, gameActive, history)
    }

    predicate Valid()
      reads this
    {
      Inv(State())
    }

    /** The declarations at the top of the script. */
    constructor ()
      ensures State() == Initial && Valid()
    {
      secretCode, attempts, gameActive, history := [], 0, false, [];
    }

    /** `initializeGame`, with the code drawn by the caller; the history list
        is emptied. */
    method InitializeGame(code: seq<int>)
      requires IsCode(code)
      modifies this
      ensures State() == Start(code) && Valid()
    {
      secretCode := code;
      attempts := 0;
      gameActive := true;
      history := [];
    }

    /** `logAttempt`: the new item goes before the first child, so the list
        stays newest first. */
    method LogAttempt(cells: seq<string>, marks: seq<Mark>)
      modifies this
      ensures history == [Entry(attempts, cells, marks)] + old(history)
      ensures secretCode == old(secretCode) && attempts == old(attempts) && gameActive == old(gameActive)
    {
      history := [Entry(attempts, cells, marks)] + history;
    }

    /** `endGame`: the game is over, whatever the outcome. */
    method EndGame(isWin: bool)
      modifies this
      ensures State() == old(State()).(gameActive := false)
    {
      gameActive := false;
    }

    /** `submitGuess` on the current texts of the four cells. */
    method SubmitGuess(cells: seq<string>) returns (result: SubmitResult)
      requires Valid() && ValidCells(cells)
      modifies this
      ensures Valid()
      ensures (State(), result) == Submit(old(State()), cells)
    {
      if !gameActive {
        return Inactive;
      }
      if SomeEmpty(cells) {
        return Incomplete;
      }
      SubmitKeepsInv(State(), cells);
      result := ScoreGuess(cells);
    }

    /** The part of `submitGuess` past its two guards: count the attempt,
        score it, log it, and end the game on a win or on the last attempt. */
    method ScoreGuess(cells: seq<string>) returns (result: SubmitResult)
      requires gameActive && |secretCode| == CodeLength
      requires ValidCells(cells) && !SomeEmpty(cells)
      modifies this
      ensures (State(), result) == Submit(old(State()), cells)
    {
      attempts := attempts + 1;
      var marks := AnalyzeGuess(secretCode, GuessValues(cells));
      LogAttempt(cells, marks);
      if AllCorrect(marks) {
        EndGame(true);
        result := Scored(marks, Won);
      } else if attempts >= MaxAttempts {
        EndGame(false);
        result := Scored(marks, Lost);
      } else {
        result := Scored(marks, Playing);
      }
    }

    /** `maxAttempts - attempts`, shown after every guess; never negative. */
    method AttemptsLeft() returns (n: int)
      requires Valid()
      ensures n == MaxAttempts - attempts && 0 <= n <= MaxAttempts
      ensures gameActive ==> n > 0
    {
      n := MaxAttempts - attempts;
    }
  }
}
